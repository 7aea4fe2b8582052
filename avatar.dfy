/** The `Avatar` component of the theme-provider module: the initials shown when there is no
    image, and the choice of what the avatar displays. */
module Avatar {
  import opened Wrappers
  import opened Strings

  /** `n[0]` of a segment, where the `undefined` of an empty segment joins as nothing. */
  function FirstChar(segment: string): (r: string)
    ensures |r| <= 1
    ensures r == [] <==> segment == []
    ensures r != [] ==> r[0] == segment[0]
  {
    if segment == [] then [] else [segment[0]]
  }

  /** `.map(n => n[0]).join('')` */
  function FirstChars(segments: seq<string>): (r: string)
    ensures |r| <= |segments|
  {
    if segments == [] then [] else FirstChar(segments[0]) + FirstChars(segments[1..])
  }

  /** `getInitials(name = '')`: split at single spaces, keep the first two segments, take the
      first character of each and upper-case the result. */
  function Initials(name: Option<string>): string {
    var segments := Split(name.GetOr(""), ' ');
    var kept := if |segments| <= 2 then segments else segments[..2];
    Upper(FirstChars(kept))
  }

  /** The index of the first space of `s`, or `|s|` when there is none. */
  function FirstSpace(s: string): (j: nat)
    ensures j <= |s|
    ensures ' ' !in s[..j]
    ensures j < |s| ==> s[j] == ' '
  {
    if s == [] then 0
    else if s[0] == ' ' then 0
    else
      var j := 1 + FirstSpace(s[1..]);
      assert s[..j] == [s[0]] + s[1..][..j - 1];
      j
  }

  /** The initials read straight off the text: its first character unless that is a space,
      then the character after the first space unless that is a space too. */
  function ScannedInitials(s: string): string {
    var j := FirstSpace(s);
    var first := if j > 0 then [s[0]] else [];
    var second := if j + 1 < |s| && s[j + 1] != ' ' then [s[j + 1]] else [];
    Upper(first + second)
  }

  /** The first segment of a split starts the text, and is empty exactly when the text is empty
      or starts with the separator. */
  lemma SplitFirst(t: string, sep: char)
    ensures FirstChar(Split(t, sep)[0]) == if t != [] && t[0] != sep then [t[0]] else []
  {
  }

  /** A text is what precedes index `j`, the character there, and what follows it. */
  lemma SliceAround(s: string, j: nat)
    requires j < |s|
    ensures s == s[..j] + [s[j]] + s[j + 1..]
  {
    assert s == s[..j] + s[j..];
    assert s[j..] == [s[j]] + s[j + 1..];
  }

  /** A text with a space splits into what precedes the first space and the split of the rest. */
  lemma SplitAtFirstSpace(s: string)
    requires FirstSpace(s) < |s|
    ensures Split(s, ' ') == [s[..FirstSpace(s)]] + Split(s[FirstSpace(s) + 1..], ' ')
  {
    var j := FirstSpace(s);
    SliceAround(s, j);
    SplitAfterPiece(s[..j], s[j + 1..], ' ');
  }

  /** The chain of `getInitials` reads the same characters as the scan. */
  lemma InitialsScan(s: string)
    ensures Initials(Some(s)) == ScannedInitials(s)
  {
    var j := FirstSpace(s);
    var segments := Split(s, ' ');
    if j == |s| {
      assert s[..j] == s;
      SplitNoSeparator(s, ' ');
      assert FirstChars(segments) == FirstChar(s) + FirstChars([]);
    } else {
      SplitAtFirstSpace(s);
      var rest := Split(s[j + 1..], ' ');
      SplitFirst(s[j + 1..], ' ');
      var kept := [s[..j], rest[0]];
      assert (if |segments| <= 2 then segments else segments[..2]) == kept;
      assert FirstChars(kept) == FirstChar(s[..j]) + (FirstChar(rest[0]) + FirstChars([]));
      assert j > 0 ==> s[..j][0] == s[0];
      assert s[j + 1..] != [] ==> s[j + 1..][0] == s[j + 1];
    }
  }

  /** At most two characters, each the upper-case form of a non-space character of the name;
      an absent or empty name gives the empty string. */
  lemma InitialsShape(name: Option<string>)
    ensures |Initials(name)| <= 2
    ensures name == None || name == Some("") ==> Initials(name) == ""
    ensures forall i :: 0 <= i < |Initials(name)| ==>
      exists k :: 0 <= k < |name.GetOr("")| && name.GetOr("")[k] != ' ' && Initials(name)[i] == UpperChar(name.GetOr("")[k])
  {
    var s := name.GetOr("");
    InitialsScan(s);
    assert Initials(name) == Initials(Some(s));
    var j := FirstSpace(s);
    var first := if j > 0 then [s[0]] else [];
    var second := if j + 1 < |s| && s[j + 1] != ' ' then [s[j + 1]] else [];
    forall i | 0 <= i < |Initials(name)|
      ensures exists k :: 0 <= k < |s| && s[k] != ' ' && Initials(name)[i] == UpperChar(s[k])
    {
      if i < |first| {
        assert s[0] != ' ' by { assert s[..j][0] == s[0]; }
        assert Initials(name)[i] == UpperChar(s[0]);
      } else {
        assert Initials(name)[i] == UpperChar(s[j + 1]);
      }
    }
  }

  /** A run of spaces still uses up a slot: `"a  b"` gives `"A"`. */
  lemma DoubleSpaceUsesSlot()
    ensures Initials(Some("a  b")) == "A"
  {
    InitialsScan("a  b");
    assert FirstSpace("a  b") == 1;
  }

  /** What the avatar shows. */
  datatype AvatarContent = Image(src: string, alt: Option<string>) | Children(children: string)
                         | InitialsText(text: string)

  /** A JavaScript string is truthy when present and not empty. */
  predicate Truthy(s: Option<string>) { s.Some? && s.value != "" }

  /** `src ? <AvatarImage …/> : (children || getInitials(alt))` */
  function AvatarContentOf(src: Option<string>, alt: Option<string>, children: Option<string>)
    : (c: AvatarContent)
    ensures c.Image? <==> Truthy(src)
    ensures c.Image? ==> c.src == src.value && c.alt == alt
    ensures c.Children? <==> !Truthy(src) && Truthy(children)
    ensures c.Children? ==> c.children == children.value
    ensures c.InitialsText? ==> c.text == ScannedInitials(alt.GetOr(""))
  {
    if Truthy(src) then Image(src.value, alt)
    else if Truthy(children) then Children(children.value)
    else
      InitialsScan(alt.GetOr(""));
      assert Initials(alt) == Initials(Some(alt.GetOr("")));
      InitialsText(Initials(alt))
  }
}
