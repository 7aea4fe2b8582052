/** The local generator `tools/cli.ts`: placeholder substitution, the output paths and the
    commands that write a component, a hook or a page. */
module Generator {
  import opened Strings
  import opened FileTree

  const Placeholder := "{{name}}"

  /** No placeholder starts anywhere in `s`. */
  predicate Free(s: string) {
    forall i :: 0 <= i < |s| ==> !OccursAt(s, Placeholder, i)
  }

  /** `s.replace(/\{\{name\}\}/g, name)`: a left-to-right scan that replaces each
      non-overlapping occurrence of the placeholder. */
  function ReplaceAll(s: string, name: string): string
    decreases |s|
  {
    if s == [] then []
    else if StartsWith(s, Placeholder) then name + ReplaceAll(s[|Placeholder|..], name)
    else [s[0]] + ReplaceAll(s[1..], name)
  }

  /** `pieces` with `sep` between each two of them. */
  function JoinWith(pieces: seq<string>, sep: string): string {
    if pieces == [] then []
    else if |pieces| == 1 then pieces[0]
    else pieces[0] + sep + JoinWith(pieces[1..], sep)
  }

  /** A text without the placeholder is left as it is. */
  lemma {:induction false} ReplaceAllNoMatch(s: string, name: string)
    requires !Contains(s, Placeholder)
    ensures ReplaceAll(s, name) == s
    decreases |s|
  {
    if s != [] {
      ReplaceAllNoMatch(s[1..], name);
    }
  }

  /** No proper suffix of the placeholder is also a prefix of it, so two occurrences never
      overlap and none can straddle a piece boundary. */
  lemma PlaceholderNoBorder()
    ensures forall j :: 0 < j < |Placeholder| ==> Placeholder[j..] != Placeholder[..|Placeholder| - j]
  {
    var p := Placeholder;
    assert p[1..] != p[..7] by { assert p[1..][1] != p[..7][1]; }
    assert p[2..] != p[..6] by { assert p[2..][5] != p[..6][5]; }
    assert p[3..] != p[..5] by { assert p[3..][0] != p[..5][0]; }
    assert p[4..] != p[..4] by { assert p[4..][0] != p[..4][0]; }
    assert p[5..] != p[..3] by { assert p[5..][0] != p[..3][0]; }
    assert p[6..] != p[..2] by { assert p[6..][0] != p[..2][0]; }
    assert p[7..] != p[..1] by { assert p[7..][0] != p[..1][0]; }
  }

  /** The scan copies a prefix in which no placeholder starts. */
  lemma {:induction false} ReplaceAllSkip(a: string, b: string, name: string)
    requires forall i :: 0 <= i < |a| ==> !StartsWith((a + b)[i..], Placeholder)
    ensures ReplaceAll(a + b, name) == a + ReplaceAll(b, name)
    decreases |a|
  {
    if a != [] {
      assert (a + b)[0..] == a + b;
      assert (a + b)[1..] == a[1..] + b;
      forall i | 0 <= i < |a[1..]|
        ensures !StartsWith((a[1..] + b)[i..], Placeholder)
      {
        assert (a[1..] + b)[i..] == (a + b)[i + 1..];
      }
      ReplaceAllSkip(a[1..], b, name);
    } else {
      assert a + b == b;
    }
  }

  /** In `piece + placeholder + rest`, no placeholder starts inside a piece without one. */
  lemma NoMatchInPiece(piece: string, rest: string)
    requires Free(piece)
    ensures forall i :: 0 <= i < |piece| ==> !StartsWith((piece + Placeholder + rest)[i..], Placeholder)
  {
    var s := piece + Placeholder + rest;
    var n := |Placeholder|;
    PlaceholderNoBorder();
    forall i | 0 <= i < |piece|
      ensures !StartsWith(s[i..], Placeholder)
    {
      if i + n <= |piece| {
        assert s[i..][..n] == piece[i..i + n];
        assert !OccursAt(piece, Placeholder, i);
      } else {
        var j := |piece| - i;
        var w := s[i..][..n];
        assert w == piece[i..] + Placeholder[..n - j];
        assert w[j..] == Placeholder[..n - j];
        assert Placeholder[j..] != Placeholder[..n - j];
      }
    }
  }

  /** Every occurrence is replaced: a text made of placeholder-free pieces separated by the
      placeholder becomes the same pieces separated by the name. */
  lemma {:induction false} ReplaceAllPieces(pieces: seq<string>, name: string)
    requires forall k :: 0 <= k < |pieces| ==> Free(pieces[k])
    ensures ReplaceAll(JoinWith(pieces, Placeholder), name) == JoinWith(pieces, name)
  {
    if |pieces| == 1 {
      ContainsIffOccurs(pieces[0], Placeholder);
      ReplaceAllNoMatch(pieces[0], name);
    } else if |pieces| > 1 {
      var rest := JoinWith(pieces[1..], Placeholder);
      NoMatchInPiece(pieces[0], rest);
      assert pieces[0] + Placeholder + rest == pieces[0] + (Placeholder + rest);
      ReplaceAllSkip(pieces[0], Placeholder + rest, name);
      assert StartsWith(Placeholder + rest, Placeholder);
      assert (Placeholder + rest)[|Placeholder|..] == rest;
      ReplaceAllPieces(pieces[1..], name);
    }
  }

  /** The generated text: the substitution done twice, as the source chains it. */
  function Substitute(template: string, name: string): string {
    ReplaceAll(ReplaceAll(template, name), name)
  }

  /** The second pass changes nothing when the first leaves no placeholder behind. */
  lemma SecondPassNoop(template: string, name: string)
    requires !Contains(ReplaceAll(template, name), Placeholder)
    ensures Substitute(template, name) == ReplaceAll(template, name)
  {
    ReplaceAllNoMatch(ReplaceAll(template, name), name);
  }

  /** A text lacking either brace holds no placeholder. */
  lemma NoPlaceholderWithoutBraces(s: string)
    requires '{' !in s || '}' !in s
    ensures Free(s)
  {
    forall i | 0 <= i && i + |Placeholder| <= |s|
      ensures !OccursAt(s, Placeholder, i)
    {
      assert s[i..i + |Placeholder|][0] == s[i] && s[i..i + |Placeholder|][7] == s[i + 7];
    }
  }

  /** A text missing one of the two brace characters holds no placeholder. */
  lemma WithoutBrace(s: string, brace: char)
    requires brace == '{' || brace == '}'
    requires brace !in s
    ensures Free(s)
  {
    NoPlaceholderWithoutBraces(s);
  }

  /** A window that starts in `a` and ends in `b` is not the placeholder. */
  lemma WindowAcross(a: string, b: string, i: nat)
    requires '}' !in a && '{' !in b
    requires a != [] && a[|a| - 1] !in "{name"
    requires |a| < i + |Placeholder| <= |a + b| && i < |a|
    ensures (a + b)[i..i + |Placeholder|] != Placeholder
  {
    var s := a + b;
    var w := s[i..i + |Placeholder|];
    var p := Placeholder;
    if i + 1 == |a| {
      assert w[1] == s[i + 1] == b[0];
      assert w[1] != p[1];
    } else if i + 6 < |a| {
      assert w[6] == s[i + 6] == a[i + 6];
      assert w[6] != p[6];
    } else {
      var j := |a| - 1 - i;
      assert 1 <= j <= 5;
      assert w[j] == s[|a| - 1] == a[|a| - 1];
      assert p[1..6] == "{name";
      assert p[j] == p[1..6][j - 1];
      assert w[j] != p[j];
    }
  }

  /** No placeholder lies across `a + b` when `a` has no closing brace, `b` no opening one and
      `a` does not end inside a placeholder's opening part. */
  lemma NoPlaceholderAcross(a: string, b: string)
    requires Free(a) && Free(b)
    requires '}' !in a && '{' !in b
    requires a != [] && a[|a| - 1] !in "{name"
    ensures Free(a + b)
  {
    var s := a + b;
    var n := |Placeholder|;
    forall i | 0 <= i && i + n <= |s|
      ensures !OccursAt(s, Placeholder, i)
    {
      if i + n <= |a| {
        assert s[i..i + n] == a[i..i + n];
        assert !OccursAt(a, Placeholder, i);
      } else if |a| <= i {
        assert s[i..i + n] == b[i - |a|..i - |a| + n];
        assert !OccursAt(b, Placeholder, i - |a|);
      } else {
        WindowAcross(a, b, i);
      }
    }
  }

  /** `c` is one of the characters of the placeholder. */
  predicate PlaceholderChar(c: char) {
    c == '{' || c == 'n' || c == 'a' || c == 'm' || c == 'e' || c == '}'
  }

  lemma PlaceholderChars()
    ensures forall j :: 0 <= j < |Placeholder| ==> PlaceholderChar(Placeholder[j])
  {
    var p := Placeholder;
    assert PlaceholderChar(p[0]) && PlaceholderChar(p[1]) && PlaceholderChar(p[2]) && PlaceholderChar(p[3]);
    assert PlaceholderChar(p[4]) && PlaceholderChar(p[5]) && PlaceholderChar(p[6]) && PlaceholderChar(p[7]);
  }

  /** `a` does not end with the first `j` characters of the placeholder, for any `0 < j < 8`. */
  predicate NoOpenTail(a: string) {
    forall j :: 1 <= j < |Placeholder| && j <= |a| ==> a[|a| - j..] != Placeholder[..j]
  }

  /** `b` does not start with the last `8 - j` characters of the placeholder, for any `0 < j < 8`. */
  predicate NoCloseHead(b: string) {
    forall j :: 1 <= j < |Placeholder| && |Placeholder| - j <= |b| ==> b[..|Placeholder| - j] != Placeholder[j..]
  }

  /** A text whose last character is not a placeholder character ends with no part of one. */
  lemma LastCharOpen(a: string)
    requires a != [] && !PlaceholderChar(a[|a| - 1])
    ensures NoOpenTail(a)
  {
    PlaceholderChars();
    forall j | 1 <= j < |Placeholder| && j <= |a|
      ensures a[|a| - j..] != Placeholder[..j]
    {
      assert a[|a| - j..][j - 1] == a[|a| - 1];
      assert Placeholder[..j][j - 1] == Placeholder[j - 1];
    }
  }

  /** A text without an opening brace ends with no part of a placeholder (each part starts with `{`). */
  lemma BraceFreeOpen(a: string)
    requires '{' !in a
    ensures NoOpenTail(a)
  {
    forall j | 1 <= j < |Placeholder| && j <= |a|
      ensures a[|a| - j..] != Placeholder[..j]
    {
      assert a[|a| - j..][0] == a[|a| - j];
      assert Placeholder[..j][0] == '{';
    }
  }

  /** Only the last seven characters matter for `NoOpenTail`. */
  lemma OpenTailSuffix(x: string, y: string)
    requires |y| >= |Placeholder| - 1 && NoOpenTail(y)
    ensures NoOpenTail(x + y)
  {
    var a := x + y;
    forall j | 1 <= j < |Placeholder| && j <= |a|
      ensures a[|a| - j..] != Placeholder[..j]
    {
      assert a[|a| - j..] == y[|y| - j..];
    }
  }

  /** A text whose first character is not a placeholder character starts with no part of one. */
  lemma FirstCharClose(b: string)
    requires b != [] && !PlaceholderChar(b[0])
    ensures NoCloseHead(b)
  {
    PlaceholderChars();
    forall j | 1 <= j < |Placeholder| && |Placeholder| - j <= |b|
      ensures b[..|Placeholder| - j] != Placeholder[j..]
    {
      assert b[..|Placeholder| - j][0] == b[0];
      assert Placeholder[j..][0] == Placeholder[j];
    }
  }

  /** Two placeholder-free texts stay free when joined, unless the first ends with the start of
      a placeholder and the second starts with its rest. */
  lemma ConcatFree(a: string, b: string)
    requires Free(a) && Free(b)
    requires NoOpenTail(a) || NoCloseHead(b)
    ensures Free(a + b)
  {
    var s := a + b;
    var n := |Placeholder|;
    forall i | 0 <= i < |s|
      ensures !OccursAt(s, Placeholder, i)
    {
      if i + n <= |a| {
        assert s[i..i + n] == a[i..i + n];
        assert !OccursAt(a, Placeholder, i);
      } else if |a| <= i {
        if i + n <= |s| {
          assert s[i..i + n] == b[i - |a|..i - |a| + n];
          assert !OccursAt(b, Placeholder, i - |a|);
        }
      } else if i + n <= |s| {
        var j := |a| - i;
        var w := s[i..i + n];
        assert w[..j] == a[|a| - j..];
        assert w[j..] == b[..n - j];
      }
    }
  }

  /** Parts between which any placeholder-free name can be put: each part is free, every part
      after the first starts with no part of a placeholder, every part before the last ends with
      none. */
  predicate Separable(parts: seq<string>) {
    && (forall k :: 0 <= k < |parts| ==> Free(parts[k]))
    && (forall k :: 1 <= k < |parts| ==> parts[k] != [] && !PlaceholderChar(parts[k][0]))
    && (forall k :: 0 <= k < |parts| - 1 ==> NoOpenTail(parts[k]))
  }

  /** The first pass's output of separable parts holds no placeholder when the name holds none. */
  lemma {:induction false} JoinFree(parts: seq<string>, name: string)
    requires Separable(parts) && Free(name)
    ensures Free(JoinWith(parts, name))
  {
    if |parts| > 1 {
      var rest := JoinWith(parts[1..], name);
      assert Separable(parts[1..]) by {
        assert forall k :: 0 <= k < |parts| - 1 ==> parts[1..][k] == parts[k + 1];
      }
      JoinFree(parts[1..], name);
      assert rest[0] == parts[1][0] by {
        if |parts| > 2 {
          assert rest == parts[1] + name + JoinWith(parts[2..], name);
        }
      }
      FirstCharClose(rest);
      ConcatFree(name, rest);
      ConcatFree(parts[0], name + rest);
      assert parts[0] + name + rest == parts[0] + (name + rest);
    }
  }

  /** The command a template is written for; it also decides the output directory. */
  datatype Kind = Component | Hook | Page

  /** The template literals, split at their placeholders. */
  const ComponentParts := [
    "import React from 'react';\n" + "import styled from 'styled-components';\n" + "\n" + "export interface ",
    "Props {\n" + "  // Add your props here\n" + ("}\n" + "\n" + "const Styled"),
    " = styled.div`\n" + "  // Add your styles here\n" + "`;\n" + "\n" + "export const ",
    ": React.FC<",
    "Props> = (props) => {\n" + "  return (\n" + "    <Styled",
    ">\n" + "      {/* Add your content here */" + ("}\n" + "    </Styled"),
    ">\n" + "  );\n" + "};\n"]

  const HookParts := [
    "import { useState, useEffect " + ("} from 'react';\n" + "\n" + "export const use"),
    " = () => {\n" + "  // Add your hook logic here\n" + "  \n" + "  return {\n"
      + "    // Return your hook values here\n" + ("  };\n" + "};\n")]

  const PageParts := [
    "import React from 'react';\n" + "import styled from 'styled-components';\n" + "\n" + "const ",
    "Container = styled.div`\n" + "  // Add your page styles here\n" + "`;\n" + "\n" + "export const ",
    "Page: React.FC = () => {\n" + "  return (\n" + "    <",
    "Container>\n" + "      <h1>",
    "</h1>\n" + "      {/* Add your page content here */" + ("}\n" + "    </"),
    "Container>\n" + "  );\n" + "};\n"]

  const IndexParts := ["export { ", " } from './", "';\n" + "export type { ", "Props } from './", "';\n"]

  const ComponentTemplate := JoinWith(ComponentParts, Placeholder)
  const HookTemplate := JoinWith(HookParts, Placeholder)
  const PageTemplate := JoinWith(PageParts, Placeholder)
  const IndexTemplate := JoinWith(IndexParts, Placeholder)

  function PartsFor(kind: Kind): seq<string> {
    match kind
    case Component => ComponentParts
    case Hook => HookParts
    case Page => PageParts
  }

  /** The `component`, `hook` and `page` commands pass COMPONENT_TEMPLATE, HOOK_TEMPLATE and
      PAGE_TEMPLATE. */
  function TemplateFor(kind: Kind): string {
    JoinWith(PartsFor(kind), Placeholder)
  }

  lemma ComponentPart0Clean()
    ensures Free(ComponentParts[0])
  {
    WithoutBrace(ComponentParts[0], '{');
  }

  lemma ComponentPart1Clean()
    ensures Free(ComponentParts[1])
  {
    var a := "Props {\n" + "  // Add your props here\n";
    var b := "}\n" + "\n" + "const Styled";
    WithoutBrace(a, '}');
    WithoutBrace(b, '{');
    NoPlaceholderAcross(a, b);
  }

  lemma ComponentPart2Clean()
    ensures Free(ComponentParts[2])
  {
    WithoutBrace(ComponentParts[2], '{');
  }

  lemma ComponentPart3Clean()
    ensures Free(ComponentParts[3])
  {
    WithoutBrace(ComponentParts[3], '{');
  }

  lemma ComponentPart4Clean()
    ensures Free(ComponentParts[4])
  {
    WithoutBrace(ComponentParts[4], '}');
  }

  lemma ComponentPart5Clean()
    ensures Free(ComponentParts[5])
  {
    var a := ">\n" + "      {/* Add your content here */";
    var b := "}\n" + "    </Styled";
    WithoutBrace(a, '}');
    WithoutBrace(b, '{');
    NoPlaceholderAcross(a, b);
  }

  lemma ComponentPart6Clean()
    ensures Free(ComponentParts[6])
  {
    WithoutBrace(ComponentParts[6], '{');
  }

  lemma ComponentPartsClean()
    ensures forall k :: 0 <= k < |ComponentParts| ==> Free(ComponentParts[k])
  {
    ComponentPart0Clean();
    ComponentPart1Clean();
    ComponentPart2Clean();
    ComponentPart3Clean();
    ComponentPart4Clean();
    ComponentPart5Clean();
    ComponentPart6Clean();
  }

  lemma HookPart0Clean()
    ensures Free(HookParts[0])
  {
    var a := "import { useState, useEffect ";
    var b := "} from 'react';\n" + "\n" + "export const use";
    WithoutBrace(a, '}');
    WithoutBrace(b, '{');
    NoPlaceholderAcross(a, b);
  }

  lemma HookPart1Clean()
    ensures Free(HookParts[1])
  {
    var a := " = () => {\n" + "  // Add your hook logic here\n" + "  \n" + "  return {\n"
        + "    // Return your hook values here\n";
    var b := "  };\n" + "};\n";
    WithoutBrace(a, '}');
    WithoutBrace(b, '{');
    NoPlaceholderAcross(a, b);
  }

  lemma HookPartsClean()
    ensures forall k :: 0 <= k < |HookParts| ==> Free(HookParts[k])
  {
    HookPart0Clean();
    HookPart1Clean();
  }

  lemma PagePart0Clean()
    ensures Free(PageParts[0])
  {
    WithoutBrace(PageParts[0], '{');
  }

  lemma PagePart1Clean()
    ensures Free(PageParts[1])
  {
    WithoutBrace(PageParts[1], '{');
  }

  lemma PagePart2Clean()
    ensures Free(PageParts[2])
  {
    WithoutBrace(PageParts[2], '}');
  }

  lemma PagePart3Clean()
    ensures Free(PageParts[3])
  {
    WithoutBrace(PageParts[3], '{');
  }

  lemma PagePart4Clean()
    ensures Free(PageParts[4])
  {
    var a := "</h1>\n" + "      {/* Add your page content here */";
    var b := "}\n" + "    </";
    WithoutBrace(a, '}');
    WithoutBrace(b, '{');
    NoPlaceholderAcross(a, b);
  }

  lemma PagePart5Clean()
    ensures Free(PageParts[5])
  {
    WithoutBrace(PageParts[5], '{');
  }

  lemma PagePartsClean()
    ensures forall k :: 0 <= k < |PageParts| ==> Free(PageParts[k])
  {
    PagePart0Clean();
    PagePart1Clean();
    PagePart2Clean();
    PagePart3Clean();
    PagePart4Clean();
    PagePart5Clean();
  }

  lemma IndexPartsClean()
    ensures forall k :: 0 <= k < |IndexParts| ==> Free(IndexParts[k])
  {
    forall k | 0 <= k < |IndexParts|
      ensures Free(IndexParts[k])
    {
      NoPlaceholderWithoutBraces(IndexParts[k]);
    }
  }

  lemma ComponentHeads()
    ensures forall k :: 1 <= k < |ComponentParts| ==> ComponentParts[k] != [] && !PlaceholderChar(ComponentParts[k][0])
  {
    assert ComponentParts[1] != [] && !PlaceholderChar(ComponentParts[1][0]);
    assert ComponentParts[2] != [] && !PlaceholderChar(ComponentParts[2][0]);
    assert ComponentParts[3] != [] && !PlaceholderChar(ComponentParts[3][0]);
    assert ComponentParts[4] != [] && !PlaceholderChar(ComponentParts[4][0]);
    assert ComponentParts[5] != [] && !PlaceholderChar(ComponentParts[5][0]);
    assert ComponentParts[6] != [] && !PlaceholderChar(ComponentParts[6][0]);
  }

  lemma ComponentTails()
    ensures forall k :: 0 <= k < |ComponentParts| - 1 ==> NoOpenTail(ComponentParts[k])
  {
    LastCharOpen(ComponentParts[0]);
    LastCharOpen(ComponentParts[1]);
    LastCharOpen(ComponentParts[2]);
    LastCharOpen(ComponentParts[3]);
    LastCharOpen(ComponentParts[4]);
    LastCharOpen(ComponentParts[5]);
  }

  lemma ComponentSeparable()
    ensures Separable(ComponentParts)
  {
    ComponentPartsClean();
    ComponentHeads();
    ComponentTails();
  }

  lemma HookHeads()
    ensures forall k :: 1 <= k < |HookParts| ==> HookParts[k] != [] && !PlaceholderChar(HookParts[k][0])
  {
    assert HookParts[1] != [] && !PlaceholderChar(HookParts[1][0]);
  }

  lemma HookTails()
    ensures forall k :: 0 <= k < |HookParts| - 1 ==> NoOpenTail(HookParts[k])
  {
    var x := "import { useState, useEffect " + "} from 'react';\n" + "\n";
    var y := "export const use";
    BraceFreeOpen(y);
    OpenTailSuffix(x, y);
    assert x + y == HookParts[0];
  }

  lemma HookSeparable()
    ensures Separable(HookParts)
  {
    HookPartsClean();
    HookHeads();
    HookTails();
  }

  lemma PageHeads()
    ensures forall k :: 1 <= k < |PageParts| ==> PageParts[k] != [] && !PlaceholderChar(PageParts[k][0])
  {
    assert PageParts[1] != [] && !PlaceholderChar(PageParts[1][0]);
    assert PageParts[2] != [] && !PlaceholderChar(PageParts[2][0]);
    assert PageParts[3] != [] && !PlaceholderChar(PageParts[3][0]);
    assert PageParts[4] != [] && !PlaceholderChar(PageParts[4][0]);
    assert PageParts[5] != [] && !PlaceholderChar(PageParts[5][0]);
  }

  lemma PageTails()
    ensures forall k :: 0 <= k < |PageParts| - 1 ==> NoOpenTail(PageParts[k])
  {
    LastCharOpen(PageParts[0]);
    LastCharOpen(PageParts[1]);
    LastCharOpen(PageParts[2]);
    LastCharOpen(PageParts[3]);
    LastCharOpen(PageParts[4]);
  }

  lemma PageSeparable()
    ensures Separable(PageParts)
  {
    PagePartsClean();
    PageHeads();
    PageTails();
  }

  lemma IndexHeads()
    ensures forall k :: 1 <= k < |IndexParts| ==> IndexParts[k] != [] && !PlaceholderChar(IndexParts[k][0])
  {
    assert IndexParts[1] != [] && !PlaceholderChar(IndexParts[1][0]);
    assert IndexParts[2] != [] && !PlaceholderChar(IndexParts[2][0]);
    assert IndexParts[3] != [] && !PlaceholderChar(IndexParts[3][0]);
    assert IndexParts[4] != [] && !PlaceholderChar(IndexParts[4][0]);
  }

  lemma IndexTails()
    ensures forall k :: 0 <= k < |IndexParts| - 1 ==> NoOpenTail(IndexParts[k])
  {
    LastCharOpen(IndexParts[0]);
    LastCharOpen(IndexParts[1]);
    LastCharOpen(IndexParts[2]);
    LastCharOpen(IndexParts[3]);
  }

  lemma IndexSeparable()
    ensures Separable(IndexParts)
  {
    IndexPartsClean();
    IndexHeads();
    IndexTails();
  }

  /** `Free` is the absence of the placeholder in the sense of `includes`. */
  lemma FreeIffNotContains(s: string)
    ensures Free(s) <==> !Contains(s, Placeholder)
  {
    ContainsIffOccurs(s, Placeholder);
  }

  /** A name without `{{name}}` leaves no placeholder in a command's first pass: no placeholder
      can form across a template part and the name. */
  lemma NameKeepsFree(kind: Kind, name: string)
    requires !Contains(name, Placeholder)
    ensures !Contains(JoinWith(PartsFor(kind), name), Placeholder)
  {
    FreeIffNotContains(name);
    match kind {
      case Component => ComponentSeparable();
      case Hook => HookSeparable();
      case Page => PageSeparable();
    }
    JoinFree(PartsFor(kind), name);
    FreeIffNotContains(JoinWith(PartsFor(kind), name));
  }

  /** The same for the index template. */
  lemma IndexNameKeepsFree(name: string)
    requires !Contains(name, Placeholder)
    ensures !Contains(JoinWith(IndexParts, name), Placeholder)
  {
    FreeIffNotContains(name);
    IndexSeparable();
    JoinFree(IndexParts, name);
    FreeIffNotContains(JoinWith(IndexParts, name));
  }

  /** The first pass puts the name in place of every placeholder of a command's template and
      changes nothing else. */
  lemma TemplateFirstPass(kind: Kind, name: string)
    ensures ReplaceAll(TemplateFor(kind), name) == JoinWith(PartsFor(kind), name)
  {
    match kind {
      case Component => ComponentPartsClean();
      case Hook => HookPartsClean();
      case Page => PagePartsClean();
    }
    ReplaceAllPieces(PartsFor(kind), name);
  }

  /** The same for the index template. */
  lemma IndexFirstPass(name: string)
    ensures ReplaceAll(IndexTemplate, name) == JoinWith(IndexParts, name)
  {
    IndexPartsClean();
    ReplaceAllPieces(IndexParts, name);
  }

  /** For a name without `{{name}}`, the generated text is the template with the name in every
      placeholder's place: the second pass changes nothing. */
  lemma GeneratedText(kind: Kind, name: string)
    requires !Contains(name, Placeholder)
    ensures Substitute(TemplateFor(kind), name) == JoinWith(PartsFor(kind), name)
  {
    TemplateFirstPass(kind, name);
    NameKeepsFree(kind, name);
    SecondPassNoop(TemplateFor(kind), name);
  }

  /** The same for the index file. */
  lemma GeneratedIndex(name: string)
    requires !Contains(name, Placeholder)
    ensures Substitute(IndexTemplate, name) == JoinWith(IndexParts, name)
  {
    IndexFirstPass(name);
    IndexNameKeepsFree(name);
    SecondPassNoop(IndexTemplate, name);
  }

  /** The directory under `src` that each kind is written to. */
  function KindDir(kind: Kind): (d: string)
    ensures d == "pages" <==> kind == Page
    ensures d == "hooks" <==> kind == Hook
    ensures d == "components" <==> kind == Component
  {
    match kind
    case Page => "pages"
    case Hook => "hooks"
    case Component => "components"
  }

  /** `src/<kind dir>/<name>`, relative to the working directory. */
  function DirFor(kind: Kind, name: string): Path {
    "src/" + KindDir(kind) + "/" + name
  }

  /** A page is written to `<name>Page.tsx`, anything else to `<name>.tsx`. */
  function MainFile(kind: Kind, name: string): string {
    if kind == Page then name + "Page.tsx" else name + ".tsx"
  }

  function MainPath(kind: Kind, name: string): Path {
    DirFor(kind, name) + "/" + MainFile(kind, name)
  }

  function IndexPath(kind: Kind, name: string): Path {
    DirFor(kind, name) + "/index.ts"
  }

  /** Both files lie in the kind's directory for the name, and they are two different files
      (the main file ends in `.tsx`, the index in `.ts`). */
  lemma GeneratedPaths(kind: Kind, name: string)
    ensures Under(MainPath(kind, name), DirFor(kind, name))
    ensures Under(IndexPath(kind, name), DirFor(kind, name))
    ensures MainPath(kind, name) != IndexPath(kind, name)
  {
    var d := DirFor(kind, name);
    var m := MainPath(kind, name);
    var x := IndexPath(kind, name);
    assert m[..|d + "/"|] == d + "/";
    assert x[..|d + "/"|] == d + "/";
    assert m[|m| - 1] == 'x';
    assert x[|x| - 1] == 's';
  }

  /** A path under `root` agrees with it on every position of `root`. */
  lemma UnderAgrees(p: Path, root: Path, i: nat)
    requires Under(p, root) && i < |root|
    ensures i < |p| && p[i] == root[i]
  {
    if p != root {
      assert p[..|root + "/"|] == root + "/";
      assert p[i] == (root + "/")[i];
    }
  }

  /** Different kinds write to different directories, whatever the names. */
  lemma KindDirsDistinct(k1: Kind, k2: Kind, n1: string, n2: string)
    requires k1 != k2
    ensures !Under(DirFor(k1, n1), DirFor(k2, n2)) && !Under(DirFor(k2, n2), DirFor(k1, n1))
  {
    var d1 := DirFor(k1, n1);
    var d2 := DirFor(k2, n2);
    assert d1[4] == KindDir(k1)[0] && d2[4] == KindDir(k2)[0];
    assert d1[4] != d2[4];
    if Under(d1, d2) {
      UnderAgrees(d1, d2, 4);
    }
    if Under(d2, d1) {
      UnderAgrees(d2, d1, 4);
    }
  }

  /** `generateFile`: the substituted template goes to the main file, then the substituted
      index template to `index.ts`; every other file stays as it was. */
  method GenerateFile(project: Directory, name: string, kind: Kind, template: string)
    modifies project
    ensures project.files
      == old(project.files)[MainPath(kind, name) := Substitute(template, name)]
                           [IndexPath(kind, name) := Substitute(IndexTemplate, name)]
  {
    var mainContent := Substitute(template, name);
    project.files := project.files[MainPath(kind, name) := mainContent];
    var indexContent := Substitute(IndexTemplate, name);
    project.files := project.files[IndexPath(kind, name) := indexContent];
  }

  /** After `generateFile` both files hold their own text and nothing else changed. */
  lemma GenerateFileResult(files: Tree, name: string, kind: Kind, template: string)
    ensures var r := files[MainPath(kind, name) := Substitute(template, name)]
                          [IndexPath(kind, name) := Substitute(IndexTemplate, name)];
      && r[MainPath(kind, name)] == Substitute(template, name)
      && r[IndexPath(kind, name)] == Substitute(IndexTemplate, name)
      && r.Keys == files.Keys + {MainPath(kind, name), IndexPath(kind, name)}
      && forall p :: p in files && !Under(p, DirFor(kind, name)) ==> r[p] == files[p]
  {
    GeneratedPaths(kind, name);
  }

  /** The `component`, `hook` and `page` commands. */
  method Generate(project: Directory, kind: Kind, name: string)
    modifies project
    ensures project.files
      == old(project.files)[MainPath(kind, name) := Substitute(TemplateFor(kind), name)]
                           [IndexPath(kind, name) := Substitute(IndexTemplate, name)]
  {
    GenerateFile(project, name, kind, TemplateFor(kind));
  }
}
