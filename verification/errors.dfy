/** errCollector: the errors of all sources gathered into one error. */
module Errors {
  import opened Wrappers
  import opened GoStrings

  /** The errors collected so far, in collection order. */
  type Collector = seq<Error>

  /** Collect: a nil error is dropped, any other is appended. */
  function Collect(c: Collector, e: Option<Error>): Collector
  {
    match e
    case None => c
    case Some(err) => c + [err]
  }

  /** Collecting the results of a list of calls, in order. */
  function CollectAll(c: Collector, results: seq<Option<Error>>): Collector
    decreases |results|
  {
    if results == [] then c
    else Collect(CollectAll(c, results[..|results| - 1]), results[|results| - 1])
  }

  /** The non-nil results of a list, in order: a reference reading of the
      collector, built from the front. */
  function NonNil(results: seq<Option<Error>>): (es: seq<Error>)
    decreases |results|
    ensures |es| <= |results|
    ensures forall e :: e in es <==> Some(e) in results
  {
    if results == [] then []
    else
      var rest := NonNil(results[1..]);
      assert forall e :: Some(e) in results <==> results[0] == Some(e) || Some(e) in results[1..];
      match results[0]
      case None => rest
      case Some(e) => [e] + rest
  }

  /** The reference reading gains the last result's error, if any, at its end. */
  lemma {:induction false} NonNilSnoc(front: seq<Option<Error>>, last: Option<Error>)
    ensures NonNil(front + [last]) ==
      NonNil(front) + (match last case None => [] case Some(e) => [e])
    decreases |front|
  {
    if front != [] {
      assert (front + [last])[1..] == front[1..] + [last];
      NonNilSnoc(front[1..], last);
    } else {
      assert (front + [last])[1..] == [];
    }
  }

  /** The collector keeps what it had, followed by exactly the non-nil
      results, in order and each once. */
  lemma {:induction false} CollectAllContents(c: Collector, results: seq<Option<Error>>)
    ensures CollectAll(c, results) == c + NonNil(results)
    ensures var r := CollectAll(c, results);
      |r| >= |c| && r[..|c|] == c &&
      forall e :: e in r[|c|..] <==> Some(e) in results
    decreases |results|
  {
    if results != [] {
      var n := |results| - 1;
      var front := results[..n];
      CollectAllContents(c, front);
      assert results == front + [results[n]];
      NonNilSnoc(front, results[n]);
    }
    var r := CollectAll(c, results);
    assert r[..|c|] == c && r[|c|..] == NonNil(results);
  }

  /** Collecting two batches in turn is collecting them together. */
  lemma {:induction false} CollectAllAppend(c: Collector, a: seq<Option<Error>>, b: seq<Option<Error>>)
    ensures CollectAll(c, a + b) == CollectAll(CollectAll(c, a), b)
    decreases |b|
  {
    if b == [] {
      assert a + b == a;
    } else {
      var n := |b| - 1;
      assert (a + b)[..|a + b| - 1] == a + b[..n];
      CollectAllAppend(c, a, b[..n]);
    }
  }

  /** The collector stays empty exactly when every result was nil. */
  lemma CollectAllEmpty(results: seq<Option<Error>>)
    ensures CollectAll([], results) == [] <==> forall i :: 0 <= i < |results| ==> results[i].None?
  {
    CollectAllContents([], results);
    var r := CollectAll([], results);
    assert r[0..] == r;
    if r != [] {
      assert r[0] in r[0..];
      assert Some(r[0]) in results;
    }
    forall i | 0 <= i < |results| && results[i].Some?
      ensures r != []
    {
      assert Some(results[i].value) in results;
      assert results[i].value in r[0..];
    }
  }

  function Messages(c: Collector): (ms: seq<string>)
    ensures |ms| == |c|
    ensures forall i :: 0 <= i < |c| ==> ms[i] == c[i].message
  {
    seq(|c|, i requires 0 <= i < |c| => c[i].message)
  }

  /** The text of the combined error: each message followed by a newline. */
  function ErrorText(c: Collector): string
    decreases |c|
  {
    if c == [] then "" else c[0].message + "\n" + ErrorText(c[1..])
  }

  /** Error(): nil when nothing was collected, otherwise one error carrying
      all the messages. */
  function ErrorOf(c: Collector): (r: Option<Error>)
    ensures r.None? <==> c == []
    ensures r.Some? ==> r.value.message == Join(Messages(c) + [""], "\n")
  {
    if c == [] then None
    else
      ErrorTextJoin(c);
      Some(Error(ErrorText(c)))
  }

  /** Every result in the list is nil. */
  predicate AllNil(results: seq<Option<Error>>) {
    forall i :: 0 <= i < |results| ==> results[i].None?
  }

  /** The error built from a list of results is nil exactly when every
      result was nil; otherwise its text is that of the collected errors. */
  lemma ErrorOfCollected(results: seq<Option<Error>>)
    ensures var o := ErrorOf(CollectAll([], results));
      (o.None? <==> AllNil(results)) &&
      (o.Some? ==> o.value.message == ErrorText(CollectAll([], results)))
  {
    CollectAllEmpty(results);
  }

  /** The combined text is the messages joined by newlines, with one more
      newline at the end. */
  lemma {:induction false} ErrorTextJoin(c: Collector)
    ensures ErrorText(c) == Join(Messages(c) + [""], "\n")
    decreases |c|
  {
    if c != [] {
      ErrorTextJoin(c[1..]);
      var ms := Messages(c) + [""];
      assert ms[1..] == Messages(c[1..]) + [""];
    }
  }

  /** When no message holds a newline, splitting the combined text at
      newlines gives back every message, in order, and a final empty piece. */
  lemma ErrorTextSplits(c: Collector)
    requires forall i :: 0 <= i < |c| ==> '\n' !in c[i].message
    ensures Split(ErrorText(c), "\n") == Messages(c) + [""]
  {
    ErrorTextJoin(c);
    var ms := Messages(c) + [""];
    NoNewlineInPieces(c);
    SplitJoinChar(ms, '\n');
    assert Join(ms, "\n") == ErrorText(c);
  }

  lemma NoNewlineInPieces(c: Collector)
    requires forall i :: 0 <= i < |c| ==> '\n' !in c[i].message
    ensures var ms := Messages(c) + [""];
      forall k :: 0 <= k < |ms| ==> '\n' !in ms[k]
  {
    var ms := Messages(c) + [""];
    forall k | 0 <= k < |ms|
      ensures '\n' !in ms[k]
    {
      if k < |c| {
        assert ms[k] == c[k].message;
      }
    }
  }
}
