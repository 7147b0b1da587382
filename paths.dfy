/**
 * Splitting a `format` path into a message id and an optional attribute name.
 * The split is at the first '.'; everything after it, dots included, names the
 * attribute.
 */
module Paths {
  import opened Wrappers

  /** The index of the first occurrence of `c` in `s` (what `str::find` returns). */
  function FindFirst(s: string, c: char): (r: Option<nat>)
    ensures r.None? <==> c !in s
    ensures r.Some? ==> r.value < |s| && s[r.value] == c && c !in s[..r.value]
  {
    if s == [] then None
    else if s[0] == c then Some(0)
    else
      match FindFirst(s[1..], c)
      case None => None
      case Some(i) =>
        assert s[..i + 1] == [s[0]] + s[1..][..i];
        Some(i + 1)
  }

  /** The message id and, when the path has a '.', the attribute name. */
  function SplitPath(path: string): (r: (string, Option<string>))
    ensures '.' !in r.0
    ensures r.1.None? <==> '.' !in path
    ensures r.1.None? ==> r.0 == path
    ensures r.1.Some? ==> path == r.0 + "." + r.1.value
  {
    match FindFirst(path, '.')
    case None => (path, None)
    case Some(pos) =>
      assert path == path[..pos] + "." + path[pos + 1..];
      (path[..pos], Some(path[pos + 1..]))
  }

  /**
   * Joining an id that has no '.' to any attribute name and splitting again
   * gives both back, even when the attribute name itself contains dots.
   */
  lemma SplitJoinedPath(id: string, attribute: string)
    requires '.' !in id
    ensures SplitPath(id + "." + attribute) == (id, Some(attribute))
  {
    var path := id + "." + attribute;
    assert path[|id|] == '.';
    var pos := FindFirst(path, '.').value;
    assert pos == |id|;
    assert path[..pos] == id;
    assert path[pos + 1..] == attribute;
  }
}
