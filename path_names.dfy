/**
 * The two pieces of pathlib.PurePath used on a bare file name: `suffix`, the
 * text from the last dot on, and `stem`, the name without that suffix. A dot
 * that is the first character (a hidden file such as ".bashrc") or the last
 * character ("notes.") does not start a suffix.
 */
module PathNames {

  /** str.rfind('.'): the position of the last dot of `name`, or -1 when it has none. */
  function LastDot(name: string): (i: int)
    ensures -1 <= i < |name|
    ensures 0 <= i ==> name[i] == '.'
    ensures forall j :: i < j < |name| ==> name[j] != '.'
  {
    if name == [] then -1
    else if name[|name| - 1] == '.' then |name| - 1
    else LastDot(name[..|name| - 1])
  }

  /** The last dot is neither the first nor the last character. */
  predicate HasSuffix(name: string)
  {
    0 < LastDot(name) < |name| - 1
  }

  function Suffix(name: string): (s: string)
    // the suffix is non-empty exactly when some dot after the first character
    // exists and the name does not end in a dot
    ensures s != [] <==>
      (|name| > 0 && name[|name| - 1] != '.' && exists j :: 1 <= j < |name| && name[j] == '.')
    // a non-empty suffix is a trailing part of the name: one dot and no other
    ensures s != [] ==>
      2 <= |s| < |name| && s[0] == '.' && name[|name| - |s|..] == s &&
      forall j :: 1 <= j < |s| ==> s[j] != '.'
  {
    if HasSuffix(name) then name[LastDot(name)..] else []
  }

  function Stem(name: string): (s: string)
    ensures s + Suffix(name) == name
  {
    if HasSuffix(name) then name[..LastDot(name)] else name
  }

  /**
   * A name written as a stem, a dot and an extension that contains no dot has
   * exactly that extension as its suffix, whatever the stem holds, as long as
   * the stem is not empty.
   */
  lemma {:induction false} SuffixOfExtension(stem: string, ext: string)
    requires stem != [] && |ext| >= 2 && ext[0] == '.'
    requires forall j :: 1 <= j < |ext| ==> ext[j] != '.'
    ensures Suffix(stem + ext) == ext
    ensures Stem(stem + ext) == stem
  {
    var name := stem + ext;
    assert name[|stem|] == '.';
    assert forall j :: |stem| < j < |name| ==> name[j] == ext[j - |stem|];
    assert LastDot(name) >= |stem|;
    assert LastDot(name) == |stem|;
    assert name[|stem|..] == ext;
    assert name[..|stem|] == stem;
  }
}
