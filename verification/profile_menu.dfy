/**
 * `getInitials` from the profile menu: the upper-cased first letters of the
 * space-separated words of a name, at most two, with `U` for a missing or
 * empty name.
 */
module ProfileMenu {
  import opened Wrappers
  import opened Text

  /** `n[0]` joined by `''`: an empty word contributes nothing (its `undefined` joins as empty). */
  function FirstOf(word: string): (r: string)
    ensures |r| <= 1 && (word == [] <==> r == [])
    ensures word != [] ==> r == [word[0]]
  {
    if word == [] then [] else [word[0]]
  }

  /** `words.map(n => n[0]).join('')`. */
  function Firsts(words: seq<string>): (r: string)
    ensures |r| <= |words|
  {
    if words == [] then [] else FirstOf(words[0]) + Firsts(words[1..])
  }

  /**
   * The characters of `s` that begin a word: not a space, and at the start
   * of `s` (when `atStart`) or right after a space.
   */
  function WordStarts(s: string, atStart: bool): (r: string)
    ensures |r| <= |s|
    ensures forall k :: 0 <= k < |r| ==> r[k] in s && r[k] != ' '
  {
    if s == [] then []
    else (if atStart && s[0] != ' ' then [s[0]] else []) + WordStarts(s[1..], s[0] == ' ')
  }

  /** The first letters of the words `split(' ')` yields are exactly the word-start characters of the name. */
  lemma {:induction false} FirstsAreWordStarts(s: string)
    ensures Firsts(Split(s, ' ')) == WordStarts(s, true)
    ensures Firsts(Split(s, ' ')[1..]) == WordStarts(s, false)
  {
    if s != [] {
      FirstsAreWordStarts(s[1..]);
      var rest := Split(s[1..], ' ');
      if s[0] == ' ' {
        assert Split(s, ' ') == [[]] + rest;
        assert Split(s, ' ')[1..] == rest;
      } else {
        var words := Split(s, ' ');
        assert words == [[s[0]] + rest[0]] + rest[1..];
        assert words[1..] == rest[1..];
      }
    }
  }

  const Fallback: string := "U"

  function Min(a: int, b: int): int {
    if a < b then a else b
  }

  /** `getInitials(name)`. */
  function Initials(name: Option<string>): (r: string)
    ensures name.None? || name.value == [] ==> r == Fallback
    ensures |r| <= 2
    ensures name.Some? && name.value != [] ==>
      var starts := WordStarts(name.value, true);
      r == Upper(starts)[..Min(2, |starts|)]
  {
    if name.None? || name.value == [] then Fallback
    else
      var firsts := Firsts(Split(name.value, ' '));
      FirstsAreWordStarts(name.value);
      Upper(firsts)[..Min(2, |firsts|)]
  }

  /** Two words give their two capitals. */
  lemma InitialsOfTwoWords()
    ensures Initials(Some("a b")) == "AB"
  {
    WordStartsOfTwoWords();
    assert Upper("ab") == "AB";
  }

  lemma WordStartsOfTwoWords()
    ensures WordStarts("a b", true) == "ab"
  {
    assert "a b"[1..] == " b" && " b"[1..] == "b" && "b"[1..] == [];
    assert WordStarts("b", true) == "b";
    assert WordStarts(" b", false) == "b";
  }

  /** A name made only of spaces gives no initials at all, not the fallback. */
  lemma InitialsOfBlank()
    ensures Initials(Some(" ")) == ""
  {
    assert " "[1..] == [];
    assert WordStarts(" ", true) == [];
  }
}
