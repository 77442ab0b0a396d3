/** The slice fixture of the package's tests: the value "a1:a2:a3:a4:a5"
    of APP_SLICE, whose env tag "slice,:" names ":" as separator, and the
    flag "-slice=a1,a2,a3,a4,a5", split on the default ",". */
module Fixtures {
  import opened GoStrings
  import opened Schema
  import opened Coercion

  const Parts: seq<string> := ["a1", "a2", "a3", "a4", "a5"]

  function Loaded(): seq<Scalar>
  {
    [TextVal("a1"), TextVal("a2"), TextVal("a3"), TextVal("a4"), TextVal("a5")]
  }

  /** The environment value loads as the five texts, and would also with
      an empty separator, which falls back to ":". */
  lemma EnvSliceFixture(lib: Library)
    ensures SetSlice(lib, Text, [], "a1:a2:a3:a4:a5", ":") == Loaded()
    ensures SetSlice(lib, Text, [], "a1:a2:a3:a4:a5", "") == Loaded()
  {
    JoinColon();
    LoadsParts(lib, ':');
  }

  /** The flag value loads as the same five texts. */
  lemma FlagSliceFixture(lib: Library)
    ensures SetSlice(lib, Text, [], "a1,a2,a3,a4,a5", ",") == Loaded()
  {
    JoinComma();
    LoadsParts(lib, ',');
  }

  /** The parts joined with either separator load back as the parts. */
  lemma LoadsParts(lib: Library, c: char)
    requires c == ':' || c == ','
    ensures SetSlice(lib, Text, [], Join(Parts, [c]), [c]) == Loaded()
  {
    PartsFree(c);
    SetSliceJoinText(lib, [], Parts, c);
    TextsOfParts();
  }

  lemma TextsOfParts()
    ensures [] + seq(|Parts|, k requires 0 <= k < |Parts| => TextVal(Parts[k])) == Loaded()
  {
  }

  lemma JoinColon()
    ensures Join(Parts, [':']) == "a1:a2:a3:a4:a5"
  {
  }

  lemma JoinComma()
    ensures Join(Parts, [',']) == "a1,a2,a3,a4,a5"
  {
  }

  lemma PartsFree(c: char)
    requires c == ':' || c == ','
    ensures forall k :: 0 <= k < |Parts| ==> c !in Parts[k]
  {
  }
}
