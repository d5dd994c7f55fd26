/** Derivation of a sibling file name (`setFilename`): the suffix goes in
    front of the last `.` of the name, that is, before the extension. */
module SiblingNames {
  import opened Results

  /** `k` is the position of the last `.` in `s`. */
  predicate IsLastDot(s: string, k: nat)
  {
    k < |s| && s[k] == '.' && forall j :: k < j < |s| ==> s[j] != '.'
  }

  /** Position of the last `.` in `s`, or `None` when there is none
      (`std::string::rfind('.')`, with `None` for `npos`). */
  function LastDot(s: string): (r: Option<nat>)
    ensures r.None? <==> '.' !in s
    ensures r.Some? ==> IsLastDot(s, r.value)
  {
    if s == [] then None
    else if s[|s| - 1] == '.' then Some(|s| - 1)
    else
      var p := LastDot(s[..|s| - 1]);
      assert forall c :: c in s ==> c in s[..|s| - 1] || c == s[|s| - 1];
      p
  }

  /** The name `setFilename(name, suffix)` leaves in `filename_`. */
  function SiblingName(name: string, suffix: string): (r: string)
    ensures '.' !in name ==> r == name
    ensures forall k: nat :: IsLastDot(name, k) ==> r == name[..k] + suffix + name[k..]
  {
    match LastDot(name)
    case None => name
    case Some(pos) =>
      assert forall k: nat :: IsLastDot(name, k) ==> k == pos;
      name[..pos] + suffix + name[pos..]
  }

  /** The derived name is the name itself exactly when the suffix is empty
      or the name has no `.` at all; in particular a copy or move of a
      matrix whose name has no `.` targets the very same path. */
  lemma SiblingNameUnchanged(name: string, suffix: string)
    ensures SiblingName(name, suffix) == name <==> suffix == [] || '.' !in name
  {
  }

  /** When the suffix has no `.`, the derived name keeps the original
      extension: its last `.` is the original last `.`, moved right by the
      suffix's length, and what follows it is unchanged. */
  lemma {:induction false} SiblingKeepsExtension(name: string, suffix: string, k: nat)
    requires IsLastDot(name, k) && '.' !in suffix
    ensures IsLastDot(SiblingName(name, suffix), k + |suffix|)
    ensures SiblingName(name, suffix)[k + |suffix|..] == name[k..]
  {
  }

  /** The example of the copy constructor's documentation. */
  lemma CopySiblingExample()
    ensures SiblingName("path/to/file/matrix100x100.matrix", "_copy")
         == "path/to/file/matrix100x100_copy.matrix"
  {
    ExampleSplit();
    ExampleJoin();
  }

  /** The example name splits at its last `.`, position 26, into its stem
      and the extension `.matrix`. */
  lemma ExampleSplit()
    ensures IsLastDot("path/to/file/matrix100x100.matrix", 26)
    ensures "path/to/file/matrix100x100.matrix"[..26] == "path/to/file/matrix100x100"
    ensures "path/to/file/matrix100x100.matrix"[26..] == ".matrix"
  {
  }

  /** The copy name put together from the stem, the suffix and the extension. */
  lemma ExampleJoin()
    ensures "path/to/file/matrix100x100" + "_copy" + ".matrix" == "path/to/file/matrix100x100_copy.matrix"
  {
  }
}
