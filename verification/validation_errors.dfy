/** `ValidationException`: the failures of a validation run grouped by property
    name. The dictionary is an association list whose entries keep the order in
    which their keys were first added, which is the order a `Dictionary` that is
    never removed from enumerates them in. */
module ValidationErrors {
  import opened Wrappers
  import opened Validators

  const DefaultMessage: string := "One or more validation failures have occurred."

  /** `Dictionary<string, List<string>>`. */
  type ErrorTable = seq<(string, seq<string>)>

  datatype ValidationException = ValidationException(message: string, errors: ErrorTable)

  predicate DistinctKeys(t: ErrorTable) {
    forall i, j :: 0 <= i < j < |t| ==> t[i].0 != t[j].0
  }

  predicate HasKey(t: ErrorTable, key: string) {
    exists i :: 0 <= i < |t| && t[i].0 == key
  }

  /** `Errors.ContainsKey` together with the position of the entry. */
  function IndexOf(t: ErrorTable, key: string): (r: Option<nat>)
    ensures r.Some? ==> r.value < |t| && t[r.value].0 == key
    ensures r.None? <==> !HasKey(t, key)
  {
    if |t| == 0 then None
    else if t[0].0 == key then Some(0)
    else
      var rest := IndexOf(t[1..], key);
      assert forall i :: 1 <= i < |t| ==> t[i] == t[1..][i - 1];
      if rest.None? then None else Some(rest.value + 1)
  }

  /** The number of messages in the table. */
  function Total(t: ErrorTable): nat {
    if |t| == 0 then 0 else |t[0].1| + Total(t[1..])
  }

  /** One turn of the loop: create an empty list for a new key, then append the
      message to the key's list. */
  function Add(t: ErrorTable, f: ValidationFailure): ErrorTable {
    match IndexOf(t, f.propertyName)
    case Some(i) => t[i := (t[i].0, t[i].1 + [f.errorMessage])]
    case None => t + [(f.propertyName, [f.errorMessage])]
  }

  /** The loop over the failures, in their order. */
  function Group(fs: seq<ValidationFailure>): ErrorTable {
    if |fs| == 0 then [] else Add(Group(fs[..|fs| - 1]), fs[|fs| - 1])
  }

  /** The constructor taking the failures. */
  function FromFailures(fs: seq<ValidationFailure>): (r: ValidationException)
    ensures r.message == DefaultMessage
    ensures |fs| == 0 ==> r.errors == []
    ensures DistinctKeys(r.errors)
    ensures forall key :: HasKey(r.errors, key) <==> HasProperty(fs, key)
    ensures forall k :: 0 <= k < |r.errors| ==> r.errors[k].1 == MessagesFor(fs, r.errors[k].0)
    ensures Total(r.errors) == |fs|
  {
    GroupFacts(fs);
    ValidationException(DefaultMessage, Group(fs))
  }

  // ---------------------------------------------------------------------------
  // Reference definitions

  predicate HasProperty(fs: seq<ValidationFailure>, key: string) {
    exists i :: 0 <= i < |fs| && fs[i].propertyName == key
  }

  /** The messages of the failures about `key`, in the order of the failures. */
  function MessagesFor(fs: seq<ValidationFailure>, key: string): seq<string> {
    if |fs| == 0 then []
    else MessagesFor(fs[..|fs| - 1], key) + (if fs[|fs| - 1].propertyName == key then [fs[|fs| - 1].errorMessage] else [])
  }

  /** Property `a` is reported before property `b` is. */
  predicate ReportedBefore(fs: seq<ValidationFailure>, a: string, b: string) {
    exists i :: 0 <= i < |fs| && fs[i].propertyName == a && NotReportedBy(fs, b, i)
  }

  /** No failure among the first `n + 1` is about `b`. */
  predicate NotReportedBy(fs: seq<ValidationFailure>, b: string, n: int) {
    forall j :: 0 <= j <= n && j < |fs| ==> fs[j].propertyName != b
  }

  // ---------------------------------------------------------------------------
  // Proofs

  lemma {:induction false} TotalAppend(t: ErrorTable, e: (string, seq<string>))
    ensures Total(t + [e]) == Total(t) + |e.1|
  {
    if |t| > 0 {
      assert (t + [e])[1..] == t[1..] + [e];
      TotalAppend(t[1..], e);
    }
  }

  lemma {:induction false} TotalUpdate(t: ErrorTable, i: nat, m: string)
    requires i < |t|
    ensures Total(t[i := (t[i].0, t[i].1 + [m])]) == Total(t) + 1
  {
    if i == 0 {
      assert t[i := (t[i].0, t[i].1 + [m])][1..] == t[1..];
    } else {
      assert t[i := (t[i].0, t[i].1 + [m])][1..] == t[1..][i - 1 := (t[i].0, t[i].1 + [m])];
      TotalUpdate(t[1..], i - 1, m);
    }
  }

  /** What one turn of the loop does to a table with distinct keys. */
  lemma AddFacts(t: ErrorTable, f: ValidationFailure)
    requires DistinctKeys(t)
    ensures DistinctKeys(Add(t, f))
    ensures |t| <= |Add(t, f)| <= |t| + 1
    ensures forall k :: 0 <= k < |t| ==> Add(t, f)[k].0 == t[k].0
    ensures |Add(t, f)| == |t| + 1 <==> !HasKey(t, f.propertyName)
    ensures |Add(t, f)| == |t| + 1 ==> Add(t, f)[|t|] == (f.propertyName, [f.errorMessage])
    ensures forall k :: 0 <= k < |t| ==>
      Add(t, f)[k].1 == t[k].1 + (if t[k].0 == f.propertyName then [f.errorMessage] else [])
    ensures forall key :: HasKey(Add(t, f), key) <==> HasKey(t, key) || key == f.propertyName
    ensures Total(Add(t, f)) == Total(t) + 1
  {
    var r := Add(t, f);
    match IndexOf(t, f.propertyName)
    case Some(i) =>
      TotalUpdate(t, i, f.errorMessage);
      forall key | HasKey(t, key) || key == f.propertyName
        ensures HasKey(r, key)
      {
        var j :| 0 <= j < |t| && t[j].0 == key;
        assert r[j].0 == key;
      }
    case None =>
      TotalAppend(t, (f.propertyName, [f.errorMessage]));
      forall key | HasKey(t, key) || key == f.propertyName
        ensures HasKey(r, key)
      {
        if key == f.propertyName {
          assert r[|t|].0 == key;
        } else {
          var j :| 0 <= j < |t| && t[j].0 == key;
          assert r[j].0 == key;
        }
      }
  }

  lemma {:induction false} MessagesForEmpty(fs: seq<ValidationFailure>, key: string)
    ensures MessagesFor(fs, key) == [] <==> !HasProperty(fs, key)
  {
    if |fs| > 0 {
      var init := fs[..|fs| - 1];
      MessagesForEmpty(init, key);
      assert forall i :: 0 <= i < |init| ==> init[i] == fs[i];
      if HasProperty(fs, key) && fs[|fs| - 1].propertyName != key {
        var i :| 0 <= i < |fs| && fs[i].propertyName == key;
        assert init[i].propertyName == key;
      }
    }
  }

  /** The table the loop builds: distinct keys, exactly the reported properties,
      each with its messages in the order they were reported, and every message
      kept. */
  lemma {:induction false} GroupFacts(fs: seq<ValidationFailure>)
    ensures DistinctKeys(Group(fs))
    ensures forall key :: HasKey(Group(fs), key) <==> HasProperty(fs, key)
    ensures forall k :: 0 <= k < |Group(fs)| ==> Group(fs)[k].1 == MessagesFor(fs, Group(fs)[k].0)
    ensures Total(Group(fs)) == |fs|
  {
    if |fs| > 0 {
      var init := fs[..|fs| - 1];
      var f := fs[|fs| - 1];
      var t := Group(init);
      GroupFacts(init);
      AddFacts(t, f);
      assert forall i :: 0 <= i < |init| ==> init[i] == fs[i];
      forall key
        ensures HasProperty(fs, key) <==> HasProperty(init, key) || key == f.propertyName
      {
        if HasProperty(fs, key) && key != f.propertyName {
          var i :| 0 <= i < |fs| && fs[i].propertyName == key;
          assert init[i].propertyName == key;
        }
      }
      forall k | 0 <= k < |Group(fs)|
        ensures Group(fs)[k].1 == MessagesFor(fs, Group(fs)[k].0)
      {
        if k == |t| {
          assert !HasKey(t, f.propertyName);
          MessagesForEmpty(init, f.propertyName);
        }
      }
    }
  }

  lemma ReportedBeforeKept(fs: seq<ValidationFailure>, a: string, b: string)
    requires |fs| > 0 && ReportedBefore(fs[..|fs| - 1], a, b)
    ensures ReportedBefore(fs, a, b)
  {
    var init := fs[..|fs| - 1];
    var n :| 0 <= n < |init| && init[n].propertyName == a && NotReportedBy(init, b, n);
    assert fs[n] == init[n];
    assert forall j :: 0 <= j <= n ==> fs[j] == init[j];
  }

  lemma ReportedBeforeNew(fs: seq<ValidationFailure>, a: string, b: string)
    requires |fs| > 0 && HasProperty(fs[..|fs| - 1], a) && !HasProperty(fs[..|fs| - 1], b)
    ensures ReportedBefore(fs, a, b)
  {
    var init := fs[..|fs| - 1];
    var n :| 0 <= n < |init| && init[n].propertyName == a;
    assert forall j :: 0 <= j <= n ==> fs[j] == init[j];
    assert NotReportedBy(fs, b, n);
  }

  /** Keys come in the order their properties were first reported. */
  lemma {:induction false} GroupKeyOrder(fs: seq<ValidationFailure>)
    ensures forall i, j :: 0 <= i < j < |Group(fs)| ==> ReportedBefore(fs, Group(fs)[i].0, Group(fs)[j].0)
  {
    if |fs| > 0 {
      var init := fs[..|fs| - 1];
      var f := fs[|fs| - 1];
      var t := Group(init);
      GroupFacts(init);
      GroupKeyOrder(init);
      AddFacts(t, f);
      var g := Group(fs);
      forall i, j | 0 <= i < j < |g|
        ensures ReportedBefore(fs, g[i].0, g[j].0)
      {
        if j < |t| {
          ReportedBeforeKept(fs, t[i].0, t[j].0);
        } else {
          assert HasKey(t, t[i].0);
          ReportedBeforeNew(fs, t[i].0, f.propertyName);
        }
      }
    }
  }

  /** Two failures of the same property share one entry, in their order. */
  lemma SamePropertyGrouped(a: ValidationFailure, b: ValidationFailure)
    requires a.propertyName == b.propertyName
    ensures Group([a, b]) == [(a.propertyName, [a.errorMessage, b.errorMessage])]
  {
    assert [a, b][..1] == [a];
    assert [a][..0] == [];
    var t := [(a.propertyName, [a.errorMessage])];
    assert Group([a]) == t;
    assert IndexOf(t, b.propertyName) == Some(0);
    assert Group([a, b]) == Add(t, b);
    assert Add(t, b) == t[0 := (a.propertyName, [a.errorMessage] + [b.errorMessage])];
    assert [a.errorMessage] + [b.errorMessage] == [a.errorMessage, b.errorMessage];
  }
}
