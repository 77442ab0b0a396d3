/** The two sources that build their flat map from a list of strings: the
    `KEY=value` entries of the process environment, and the command-line
    arguments. Both are folds over the list, modelled here with the list
    passed in. */
module Tokenize {
  import opened GoStrings

  /** The flat map a list of (key, value) writes builds, later writes
      replacing earlier ones. */
  function PairsMap(pairs: seq<(string, string)>): map<string, string>
    decreases |pairs|
  {
    if pairs == [] then map[]
    else PairsMap(pairs[..|pairs| - 1])[pairs[|pairs| - 1].0 := pairs[|pairs| - 1].1]
  }

  /** The entries `key=value` a list of pairs is written as. */
  function Render(pairs: seq<(string, string)>): (r: seq<string>)
    ensures |r| == |pairs|
    ensures forall i :: 0 <= i < |pairs| ==> r[i] == pairs[i].0 + "=" + pairs[i].1
  {
    seq(|pairs|, i requires 0 <= i < |pairs| => pairs[i].0 + "=" + pairs[i].1)
  }

  // ---------------------------------------------------------------------
  // EnvSource.Load

  /** One environment entry: split at its first "=", or ignored when it
      has none. */
  function EnvStep(m: map<string, string>, entry: string): map<string, string>
  {
    if Contains(entry, "=") then
      var p := SplitFirst(entry, "=");
      m[p.0 := p.1]
    else m
  }

  /** The map EnvSource builds from os.Environ(), entries applied in order. */
  function EnvMap(environ: seq<string>): (m: map<string, string>)
    decreases |environ|
    // a key is the text before the first "=", so it never holds one
    ensures forall k :: k in m ==> '=' !in k
  {
    if environ == [] then map[]
    else
      var m0 := EnvMap(environ[..|environ| - 1]);
      var entry := environ[|environ| - 1];
      EnvStepKey(entry);
      EnvStep(m0, entry)
  }

  lemma EnvStepKey(entry: string)
    ensures Contains(entry, "=") ==> '=' !in SplitFirst(entry, "=").0
  {
    if Contains(entry, "=") {
      var k := SplitFirst(entry, "=").0;
      if '=' in k {
        var j :| 0 <= j < |k| && k[j] == '=';
        OccursAtChar(k, '=', j);
      }
    }
  }

  /** Writing each pair as `key=value` and reading the environment back
      gives the same map, when no key holds "=". */
  lemma {:induction false} EnvMapRender(pairs: seq<(string, string)>)
    requires forall i :: 0 <= i < |pairs| ==> '=' !in pairs[i].0
    ensures EnvMap(Render(pairs)) == PairsMap(pairs)
    decreases |pairs|
  {
    if pairs != [] {
      var n := |pairs| - 1;
      assert Render(pairs)[..n] == Render(pairs[..n]);
      EnvMapRender(pairs[..n]);
      SplitFirstChar(pairs[n].0, '=', pairs[n].1);
    }
  }

  /** An entry without "=" is skipped. */
  lemma EnvMapSkipsBareEntry(environ: seq<string>, entry: string)
    requires '=' !in entry
    ensures EnvMap(environ + [entry]) == EnvMap(environ)
  {
    ContainsChar(entry, '=');
    assert (environ + [entry])[..|environ|] == environ;
  }

  /** Only the first "=" splits: everything after it, further "=" included,
      is the value, and the last entry for a key wins. */
  lemma EnvMapLastEntryWins(environ: seq<string>, key: string, value: string)
    requires '=' !in key
    ensures var m := EnvMap(environ + [key + "=" + value]);
      key in m && m[key] == value
  {
    SplitFirstChar(key, '=', value);
    assert (environ + [key + "=" + value])[..|environ|] == environ;
  }

  // ---------------------------------------------------------------------
  // FlagsSource.Load

  /** The tokenizer's state: the map so far and the pending key ("" when
      there is none). */
  datatype FlagState = FlagState(m: map<string, string>, pending: string)

  const Start := FlagState(map[], "")

  predicate IsDash(tok: string) { HasPrefix(tok, "-") }

  /** One argument: a dash token resets the pending key and either writes
      `-k=v` or becomes the pending key; any other token is the value of the
      pending key, when there is one, and is dropped otherwise. The pending
      key stays set after it is written. */
  function FlagStep(st: FlagState, tok: string): FlagState
  {
    if IsDash(tok) then
      if Contains(tok, "=") then
        var p := SplitFirst(tok, "=");
        FlagState(st.m[p.0 := p.1], "")
      else FlagState(st.m, tok)
    else if st.pending != "" then FlagState(st.m[st.pending := tok], st.pending)
    else st
  }

  /** The tokenizer run over a list of arguments, from a given state. */
  function FlagRun(st: FlagState, toks: seq<string>): FlagState
    decreases |toks|
  {
    if toks == [] then st
    else FlagStep(FlagRun(st, toks[..|toks| - 1]), toks[|toks| - 1])
  }

  /** Every key written, and the pending key, starts with "-". */
  predicate DashKeyed(st: FlagState)
  {
    (st.pending == "" || IsDash(st.pending)) && forall k :: k in st.m ==> IsDash(k)
  }

  /** The map FlagsSource builds from os.Args; the program name args[0] is
      skipped. */
  function FlagMap(args: seq<string>): (m: map<string, string>)
    requires |args| >= 1
    ensures forall k :: k in m ==> IsDash(k)
  {
    FlagRunDashKeyed(Start, args[1..]);
    FlagRun(Start, args[1..]).m
  }

  lemma FlagStepDashKeyed(st: FlagState, tok: string)
    requires DashKeyed(st)
    ensures DashKeyed(FlagStep(st, tok))
  {
    if IsDash(tok) && Contains(tok, "=") {
      var p := SplitFirst(tok, "=");
      assert tok[0] == '-';
      assert tok[0] == (if p.0 == "" then '=' else p.0[0]);
    }
  }

  lemma {:induction false} FlagRunDashKeyed(st: FlagState, toks: seq<string>)
    requires DashKeyed(st)
    ensures DashKeyed(FlagRun(st, toks))
    decreases |toks|
  {
    if toks != [] {
      FlagRunDashKeyed(st, toks[..|toks| - 1]);
      FlagStepDashKeyed(FlagRun(st, toks[..|toks| - 1]), toks[|toks| - 1]);
    }
  }

  /** Running over two lists in turn is running over their concatenation. */
  lemma {:induction false} FlagRunAppend(st: FlagState, a: seq<string>, b: seq<string>)
    ensures FlagRun(st, a + b) == FlagRun(FlagRun(st, a), b)
    decreases |b|
  {
    if b == [] {
      assert a + b == a;
    } else {
      var n := |b| - 1;
      assert (a + b)[..|a + b| - 1] == a + b[..n];
      FlagRunAppend(st, a, b[..n]);
    }
  }

  /** Non-dash arguments met while no key is pending are dropped: before the
      first dash argument, and after a `-k=v` argument. */
  lemma {:induction false} FlagRunDropsLeadingValues(st: FlagState, toks: seq<string>)
    requires st.pending == ""
    requires forall i :: 0 <= i < |toks| ==> !IsDash(toks[i])
    ensures FlagRun(st, toks) == st
    decreases |toks|
  {
    if toks != [] {
      FlagRunDropsLeadingValues(st, toks[..|toks| - 1]);
    }
  }

  /** `-k=v` arguments alone build the map of their pairs: each key maps to
      the value of its last occurrence. */
  lemma {:induction false} FlagRunRender(pairs: seq<(string, string)>)
    requires forall i :: 0 <= i < |pairs| ==> IsDash(pairs[i].0) && '=' !in pairs[i].0
    ensures FlagRun(Start, Render(pairs)).m == PairsMap(pairs)
    ensures pairs != [] ==> FlagRun(Start, Render(pairs)).pending == ""
    decreases |pairs|
  {
    if pairs != [] {
      var n := |pairs| - 1;
      assert Render(pairs)[..n] == Render(pairs[..n]);
      FlagRunRender(pairs[..n]);
      FlagStepPair(FlagRun(Start, Render(pairs[..n])), pairs[n].0, pairs[n].1);
    }
  }

  /** A `-k=v` argument writes v under -k and clears the pending key. */
  lemma FlagStepPair(st: FlagState, key: string, value: string)
    requires IsDash(key) && '=' !in key
    ensures FlagStep(st, key + "=" + value) == FlagState(st.m[key := value], "")
  {
    SplitFirstChar(key, '=', value);
    var tok := key + "=" + value;
    assert tok[..|key|] == key;
  }

  /** A bare dash key followed by values: every value overwrites the one
      before, so the key ends with the last of them, and it stays pending. */
  lemma {:induction false} FlagPendingLastValueWins(st: FlagState, key: string, values: seq<string>)
    requires IsDash(key) && '=' !in key
    requires |values| >= 1
    requires forall i :: 0 <= i < |values| ==> !IsDash(values[i])
    ensures FlagRun(st, [key] + values) == FlagState(st.m[key := values[|values| - 1]], key)
    decreases |values|
  {
    var n := |values| - 1;
    var toks := [key] + values;
    assert toks[..|toks| - 1] == [key] + values[..n];
    assert toks[|toks| - 1] == values[n];
    assert key != "";
    ContainsChar(key, '=');
    if n == 0 {
      assert [key][..0] == [];
      assert FlagRun(st, [key]) == FlagState(st.m, key);
    } else {
      FlagPendingLastValueWins(st, key, values[..n]);
    }
  }

  /** A bare dash key with nothing after it writes nothing. */
  lemma FlagTrailingKeyWritesNothing(st: FlagState, key: string)
    requires IsDash(key) && '=' !in key
    ensures FlagRun(st, [key]).m == st.m
  {
    assert [key][..0] == [];
    ContainsChar(key, '=');
  }

  /** The argument list of the flag fixture shape: the program name, then
      `-k=v` arguments only. */
  lemma FlagMapRender(program: string, pairs: seq<(string, string)>)
    requires forall i :: 0 <= i < |pairs| ==> IsDash(pairs[i].0) && '=' !in pairs[i].0
    ensures FlagMap([program] + Render(pairs)) == PairsMap(pairs)
  {
    assert ([program] + Render(pairs))[1..] == Render(pairs);
    FlagRunRender(pairs);
  }
}
