/** String helpers of the TMX server (TmxUtils.java): the escaping that carries tag
    text inside an HTML title attribute and back, search highlighting, the plain
    text of a segment, line cleaning and the TMX creation date. */
module TmxUtils {
  import opened Wrappers
  import opened Strings
  import opened Xml

  /** U+200B ZERO WIDTH SPACE, the marker that introduces an escaped character. */
  const Zwsp: char := '\U{200B}'
  const LeftMark: string := [Zwsp, '\U{2039}']
  const RightMark: string := [Zwsp, '\U{203A}']
  const QuoteMark: string := [Zwsp, '\U{2033}']

  // ---------------------------------------------------------------------
  // General facts about ReplaceAll used below

  lemma {:induction false} ReplaceAllKeepsOut(s: string, pat: string, rep: string, d: char)
    requires |pat| > 0 && d !in s && d !in rep
    ensures d !in ReplaceAll(s, pat, rep)
  {
    if s != [] {
      if pat <= s { ReplaceAllKeepsOut(s[|pat|..], pat, rep, d); }
      else { ReplaceAllKeepsOut(s[1..], pat, rep, d); }
    }
  }

  lemma {:induction false} ReplaceAllRemoves(s: string, c: char, rep: string)
    requires c !in rep
    ensures c !in ReplaceAll(s, [c], rep)
  {
    if s != [] {
      if [c] <= s { ReplaceAllRemoves(s[1..], c, rep); }
      else { ReplaceAllRemoves(s[1..], c, rep); }
    }
  }

  /** A chunk without the pattern's first character passes through unchanged. */
  lemma {:induction false} ReplaceAllSkips(x: string, y: string, pat: string, rep: string)
    requires |pat| > 0 && pat[0] !in x
    ensures ReplaceAll(x + y, pat, rep) == x + ReplaceAll(y, pat, rep)
  {
    if x != [] {
      assert !(pat <= x + y);
      assert (x + y)[1..] == x[1..] + y;
      ReplaceAllSkips(x[1..], y, pat, rep);
    } else {
      assert x + y == y;
    }
  }

  lemma ReplaceAllHit(y: string, pat: string, rep: string)
    requires |pat| > 0
    ensures ReplaceAll(pat + y, pat, rep) == rep + ReplaceAll(y, pat, rep)
  {
    assert pat <= pat + y;
    assert (pat + y)[|pat|..] == y;
  }

  lemma {:induction false} ReplaceAllAbsent(s: string, pat: string, rep: string)
    requires |pat| > 0 && !Occurs(s, pat)
    ensures ReplaceAll(s, pat, rep) == s
  {
    if s != [] {
      assert !OccursAt(s, pat, 0);
      assert !(pat <= s) by {
        if |pat| <= |s| { assert s[0..|pat|] == s[..|pat|]; }
      }
      forall i | 0 <= i <= |s[1..]|
        ensures !OccursAt(s[1..], pat, i)
      {
        assert !OccursAt(s, pat, i + 1);
        if i + |pat| <= |s[1..]| {
          assert s[1..][i..i + |pat|] == s[i + 1..i + 1 + |pat|];
        }
      }
      ReplaceAllAbsent(s[1..], pat, rep);
      assert s == [s[0]] + s[1..];
    }
  }

  // ---------------------------------------------------------------------
  // cleanAngles, unquote, restoreAngles

  /** `cleanAngles`: `&`, `<` and `>` become `&amp;` and marker pairs, so the text can stand in an attribute. */
  function CleanAngles(s: string): (r: string)
    ensures '<' !in r && '>' !in r
  {
    var amp := ReplaceAll(s, "&", "&amp;");
    var lt := ReplaceAll(amp, "<", LeftMark);
    ReplaceAllRemoves(amp, '<', LeftMark);
    ReplaceAllKeepsOut(lt, ">", RightMark, '<');
    ReplaceAllRemoves(lt, '>', RightMark);
    ReplaceAll(lt, ">", RightMark)
  }

  /** `unquote`: every double quote becomes a marker pair. */
  function Unquote(s: string): (r: string)
    ensures '"' !in r
  {
    ReplaceAllRemoves(s, '"', QuoteMark);
    ReplaceAll(s, "\"", QuoteMark)
  }

  /** `restoreAngles`: the marker pairs become `<`, `>` and `"` again, then `&amp;` becomes `&`. */
  function RestoreAngles(s: string): string
  {
    var lt := ReplaceAll(s, LeftMark, "<");
    var gt := ReplaceAll(lt, RightMark, ">");
    var quote := ReplaceAll(gt, QuoteMark, "\"");
    ReplaceAll(quote, "&amp;", "&")
  }

  /** The form of one character after `k` of the eight replacement steps that
      cleanAngles, unquote and restoreAngles perform in turn. */
  function Chunk(c: char, k: nat): string
  {
    if c == '&' then (if 1 <= k <= 7 then "&amp;" else "&")
    else if c == '<' then (if 2 <= k <= 4 then LeftMark else "<")
    else if c == '>' then (if 3 <= k <= 5 then RightMark else ">")
    else if c == '"' then (if 4 <= k <= 6 then QuoteMark else "\"")
    else [c]
  }

  function Stage(s: string, k: nat): string
  {
    if s == [] then [] else Chunk(s[0], k) + Stage(s[1..], k)
  }

  function StepPattern(k: nat): string
    requires k < 8
  {
    ["&", "<", ">", "\"", LeftMark, RightMark, QuoteMark, "&amp;"][k]
  }

  function StepReplacement(k: nat): string
    requires k < 8
  {
    ["&amp;", LeftMark, RightMark, QuoteMark, "<", ">", "\"", "&"][k]
  }

  /** How one replacement step treats a chunk: the pattern itself is replaced; a chunk
      without the pattern's first character, or a marker pair other than the pattern,
      passes through. */
  lemma ChunkRule(ch: string, ch': string, y: string, pat: string, rep: string)
    requires |pat| > 0
    requires (ch == pat && ch' == rep)
          || (ch == ch' && pat[0] !in ch)
          || (ch == ch' && |ch| == 2 && |pat| == 2 && ch[0] == pat[0] && ch[1] != pat[1] && ch[1] != pat[0])
    ensures ReplaceAll(ch + y, pat, rep) == ch' + ReplaceAll(y, pat, rep)
  {
    if ch == pat && ch' == rep {
      ReplaceAllHit(y, pat, rep);
    } else if pat[0] !in ch {
      ReplaceAllSkips(ch, y, pat, rep);
    } else {
      MarkerPasses(ch, y, pat, rep);
    }
  }

  lemma MarkerPasses(ch: string, y: string, pat: string, rep: string)
    requires |ch| == 2 && |pat| == 2 && ch[0] == pat[0] && ch[1] != pat[1] && ch[1] != pat[0]
    ensures ReplaceAll(ch + y, pat, rep) == ch + ReplaceAll(y, pat, rep)
  {
    assert (ch + y)[1] != pat[1];
    assert !(pat <= ch + y);
    assert (ch + y)[1..] == [ch[1]] + y;
    ReplaceAllSkips([ch[1]], y, pat, rep);
    assert ch == [ch[0]] + [ch[1]];
  }

  lemma ChunkStep(c: char, y: string, k: nat)
    requires k < 8 && c != Zwsp
    ensures ReplaceAll(Chunk(c, k) + y, StepPattern(k), StepReplacement(k))
         == Chunk(c, k + 1) + ReplaceAll(y, StepPattern(k), StepReplacement(k))
  {
    ChunkRule(Chunk(c, k), Chunk(c, k + 1), y, StepPattern(k), StepReplacement(k));
  }

  lemma {:induction false} StageStep(s: string, k: nat)
    requires k < 8 && Zwsp !in s
    ensures ReplaceAll(Stage(s, k), StepPattern(k), StepReplacement(k)) == Stage(s, k + 1)
  {
    if s != [] {
      ChunkStep(s[0], Stage(s[1..], k), k);
      StageStep(s[1..], k);
    }
  }

  lemma {:induction false} StageEnds(s: string)
    ensures Stage(s, 0) == s && Stage(s, 8) == s
  {
    if s != [] { StageEnds(s[1..]); }
  }

  /** The escaping used for the title of a tag image is undone by restoreAngles
      for every text without U+200B; replaceTags depends on this. */
  lemma RestoreAnglesInvertsEscaping(s: string)
    requires Zwsp !in s
    ensures RestoreAngles(Unquote(CleanAngles(s))) == s
  {
    StageEnds(s);
    StageStep(s, 0); StageStep(s, 1); StageStep(s, 2); StageStep(s, 3);
    StageStep(s, 4); StageStep(s, 5); StageStep(s, 6); StageStep(s, 7);
  }

  /** `getTail`: the end tag of an element. */
  function GetTail(e: Element): (r: string)
    ensures r == "</" + e.name + ">"
  {
    "</" + e.name + ">"
  }

  /** An end tag shown as a tag image is restored to itself. */
  lemma TailRoundTrip(e: Element)
    requires Zwsp !in e.name
    ensures RestoreAngles(Unquote(CleanAngles(GetTail(e)))) == GetTail(e)
  {
    RestoreAnglesInvertsEscaping(GetTail(e));
  }

  // ---------------------------------------------------------------------
  // cleanLines

  /** `cleanLines`: line feeds and tabs become spaces. */
  function CleanLines(s: string): (r: string)
    ensures |r| == |s|
    ensures forall i :: 0 <= i < |s| ==> r[i] == (if s[i] == '\n' || s[i] == '\t' then ' ' else s[i])
  {
    ReplaceCharAt(s, '\n', ' ');
    ReplaceCharAt(ReplaceChar(s, '\n', ' '), '\t', ' ');
    ReplaceChar(ReplaceChar(s, '\n', ' '), '\t', ' ')
  }

  lemma {:induction false} ReplaceCharAt(s: string, from: char, to: char)
    ensures |ReplaceChar(s, from, to)| == |s|
    ensures forall i :: 0 <= i < |s| ==> ReplaceChar(s, from, to)[i] == (if s[i] == from then to else s[i])
  {
    if s != [] { ReplaceCharAt(s[1..], from, to); }
  }

  // ---------------------------------------------------------------------
  // highlight, case-sensitive

  const Style: string := "class='highlighted'"

  /** The markup that highlight puts around each match. */
  function Wrap(target: string): string
  {
    "<span " + Style + ">" + target + "</span>"
  }

  /** A scan of a text for a target: each piece is a character left alone or a match. */
  datatype Piece = Plain(c: char) | Match

  function Scan(s: string, t: string): seq<Piece>
    requires |t| > 0
    decreases |s|
  {
    if s == [] then []
    else if t <= s then [Match] + Scan(s[|t|..], t)
    else [Plain(s[0])] + Scan(s[1..], t)
  }

  function Render(ps: seq<Piece>, hit: string): string
  {
    if ps == [] then []
    else (if ps[0].Match? then hit else [ps[0].c]) + Render(ps[1..], hit)
  }

  /** Writing every match back as the target itself gives the scanned text. */
  lemma {:induction false} ScanRendersOriginal(s: string, t: string)
    requires |t| > 0
    ensures Render(Scan(s, t), t) == s
    decreases |s|
  {
    if s != [] {
      if t <= s {
        ScanRendersOriginal(s[|t|..], t);
        assert s == t + s[|t|..];
      } else {
        ScanRendersOriginal(s[1..], t);
        assert s == [s[0]] + s[1..];
      }
    }
  }

  /** Replacing from left to right is rendering the scan with the replacement for each match. */
  lemma {:induction false} ReplaceAllRendersScan(s: string, t: string, w: string)
    requires |t| > 0
    ensures ReplaceAll(s, t, w) == Render(Scan(s, t), w)
    decreases |s|
  {
    if s != [] {
      if t <= s { ReplaceAllRendersScan(s[|t|..], t, w); }
      else { ReplaceAllRendersScan(s[1..], t, w); }
    }
  }

  /** Highlighting can be undone: replacing each inserted wrapper by the target
      it wraps gives back the original text. */
  lemma HighlightReversible(s: string, t: string)
    requires |t| > 0
    ensures ReplaceAll(s, t, Wrap(t)) == Render(Scan(s, t), Wrap(t))
    ensures Render(Scan(s, t), t) == s
  {
    ReplaceAllRendersScan(s, t, Wrap(t));
    ScanRendersOriginal(s, t);
  }

  /** No character left alone by the scan starts an occurrence of the target in the
      rest of the text: matches are taken leftmost first and never overlap. */
  lemma {:induction false} ScanLeftmost(s: string, t: string, i: int)
    requires |t| > 0 && 0 <= i < |Scan(s, t)| && Scan(s, t)[i].Plain?
    ensures !(t <= Render(Scan(s, t)[i..], t))
    decreases |s|
  {
    var ps := Scan(s, t);
    if t <= s {
      ScanLeftmost(s[|t|..], t, i - 1);
      assert ps[i..] == Scan(s[|t|..], t)[i - 1..];
    } else if i == 0 {
      ScanRendersOriginal(s, t);
    } else {
      ScanLeftmost(s[1..], t, i - 1);
      assert ps[i..] == Scan(s[1..], t)[i - 1..];
    }
  }

  /** Searching after a processed prefix `p` is searching the original text from `n` on. */
  lemma {:induction false} IndexShift(p: string, s: string, n: nat, t: string, k: nat)
    requires |t| > 0 && n <= |s|
    ensures IndexFrom(p + s[n..], t, |p| + k)
         == (if IndexFrom(s, t, n + k) == -1 then -1 else IndexFrom(s, t, n + k) - n + |p|)
    decreases |s| - n - k
  {
    if n + k + |t| <= |s| {
      assert (p + s[n..])[|p| + k..] == s[n + k..];
      IndexShift(p, s, n, t, k + 1);
    }
  }

  lemma {:induction false} ReplaceAllAtFirst(x: string, t: string, w: string, j: nat, k: nat)
    requires |t| > 0 && j <= k && OccursAt(x, t, k)
    requires forall i :: j <= i < k ==> !OccursAt(x, t, i)
    ensures ReplaceAll(x[j..], t, w) == x[j..k] + w + ReplaceAll(x[k + |t|..], t, w)
    decreases k - j
  {
    assert x[j..][..|t|] == x[j..j + |t|];
    if j == k {
      assert t <= x[j..];
      assert x[j..][|t|..] == x[k + |t|..];
    } else {
      assert !OccursAt(x, t, j);
      assert !(t <= x[j..]);
      ReplaceAllAtFirst(x, t, w, j + 1, k);
      assert x[j..][1..] == x[j + 1..];
      assert x[j..k] == [x[j]] + x[j + 1..k];
    }
  }

  /** Replacing `n` characters at position `start` of `done + s[i..]`, which is position `k` of `s`. */
  lemma Splice(result: string, done: string, s: string, i: nat, start: nat, k: nat, n: nat, w: string)
    requires |done| <= start && k == i + start - |done| && k + n <= |s| && result == done + s[i..]
    ensures result[..start] + w + result[start + n..] == (done + s[i..k] + w) + s[k + n..]
  {
    assert result[..start] == done + s[i..k];
    assert result[start + n..] == s[k + n..];
  }

  /** The search after an inserted wrapper, in terms of the original text. */
  lemma ResumeSearch(r: string, p: string, s: string, n: nat, t: string, from: nat)
    requires |t| > 0 && n <= |s| && r == p + s[n..] && from == |p|
    ensures IndexFrom(r, t, from) == (if IndexFrom(s, t, n) == -1 then -1 else IndexFrom(s, t, n) - n + |p|)
  {
    IndexShift(p, s, n, t, 0);
  }

  lemma Regroup(total: string, done: string, rest: string, pre: string, w: string, tail: string)
    requires total == done + rest && rest == pre + w + tail
    ensures total == (done + pre + w) + tail
  {
  }

  lemma {:induction false} NoOccurrenceFrom(s: string, t: string, w: string, i: nat)
    requires |t| > 0 && i <= |s| && IndexFrom(s, t, i) == -1
    ensures ReplaceAll(s[i..], t, w) == s[i..]
  {
    IndexFromFirst(s, t, i);
    forall j | 0 <= j <= |s[i..]|
      ensures !OccursAt(s[i..], t, j)
    {
      assert !OccursAt(s, t, i + j);
      if j + |t| <= |s[i..]| {
        assert s[i..][j..j + |t|] == s[i + j..i + j + |t|];
      }
    }
    ReplaceAllAbsent(s[i..], t, w);
  }

  /** One round of the highlight loop keeps its invariant: the text processed so far,
      followed by the unprocessed rest of the original, and the next match position. */
  lemma HighlightStep(s: string, t: string, w: string, done: string, i: nat, start: int, result: string, k: int)
    requires |t| > 0 && i <= |s|
    requires result == done + s[i..]
    requires ReplaceAll(s, t, w) == done + ReplaceAll(s[i..], t, w)
    requires start == (if IndexFrom(s, t, i) == -1 then -1 else IndexFrom(s, t, i) - i + |done|)
    requires start != -1 && k == IndexFrom(s, t, i)
    ensures i <= k && k + |t| <= |s| && |done| <= start && |done + s[i..k] + w| == start + |w|
    ensures result[..start] + w + result[start + |t|..] == (done + s[i..k] + w) + s[k + |t|..]
    ensures ReplaceAll(s, t, w) == (done + s[i..k] + w) + ReplaceAll(s[k + |t|..], t, w)
  {
    assert ReplaceAll(s[i..], t, w) == s[i..k] + w + ReplaceAll(s[k + |t|..], t, w) by {
      IndexFromFirst(s, t, i);
      ReplaceAllAtFirst(s, t, w, i, k);
    }
    Regroup(ReplaceAll(s, t, w), done, ReplaceAll(s[i..], t, w), s[i..k], w, ReplaceAll(s[k + |t|..], t, w));
    Splice(result, done, s, i, start, k, |t|, w);
  }

  /** `highlight(string, target, true)`: every occurrence of the target is wrapped in a
      highlighting span. The search resumes after each inserted wrapper, so the result
      is Java's left-to-right `replace` on the original text (see HighlightReversible). */
  method Highlight(s: string, target: string) returns (result: string)
    requires |target| > 0
    ensures result == ReplaceAll(s, target, Wrap(target))
  {
    var replacement := Wrap(target);
    result := ReplaceForward(s, target, replacement);
  }

  /** The loop of `highlight`: replace the next occurrence of the target and resume
      the search after the replacement just inserted. */
  method ReplaceForward(s: string, target: string, replacement: string) returns (result: string)
    requires |target| > 0
    ensures result == ReplaceAll(s, target, replacement)
  {
    result := s;
    var start := IndexFrom(result, target, 0);
    ghost var done: string := [];
    ghost var i: nat := 0;
    while start != -1
      invariant i <= |s|
      invariant result == done + s[i..]
      invariant ReplaceAll(s, target, replacement) == done + ReplaceAll(s[i..], target, replacement)
      invariant start == (if IndexFrom(s, target, i) == -1 then -1 else IndexFrom(s, target, i) - i + |done|)
      decreases |s| - i
    {
      ghost var k := IndexFrom(s, target, i);
      HighlightStep(s, target, replacement, done, i, start, result, k);
      result := result[..start] + replacement + result[start + |target|..];
      done := done + s[i..k] + replacement;
      i := k + |target|;
      start := start + |replacement|;
      ResumeSearch(result, done, s, i, target, start);
      start := IndexFrom(result, target, start);
    }
    NoOccurrenceFrom(s, target, replacement, i);
  }

  // ---------------------------------------------------------------------
  // textOnly

  /** The TMX 1.4b inline elements whose text belongs to the segment text. */
  predicate IsInline(e: Element)
  {
    e.name == "sub" || e.name == "hi"
  }

  function NodeText(n: Node): string
  {
    match n
    case Text(t) => t
    case Child(e) => if IsInline(e) then TextOnly(e) else []
  }

  /** `textOnly`: the text nodes in document order, descending only into `sub` and `hi`. */
  function TextOnly(e: Element): string
    decreases e, |e.content| + 1
  {
    ContentText(e, 0)
  }

  function ContentText(e: Element, i: nat): string
    decreases e, |e.content| - i
  {
    if i >= |e.content| then []
    else
      assert e.content[i] in e.content;
      (match e.content[i]
       case Text(t) => t
       case Child(c) => if IsInline(c) then TextOnly(c) else [])
      + ContentText(e, i + 1)
  }

  /** `textOnly` as the source writes it: a loop over the content that appends text
      and recurses into inline elements. */
  method TextOnlyOf(seg: Element) returns (text: string)
    ensures text == TextOnly(seg)
    decreases seg
  {
    text := [];
    var i := 0;
    while i < |seg.content|
      invariant 0 <= i <= |seg.content|
      invariant text + ContentText(seg, i) == TextOnly(seg)
    {
      assert seg.content[i] in seg.content;
      var piece: string := [];
      match seg.content[i] {
        case Text(t) =>
          piece := t;
        case Child(e) =>
          if IsInline(e) {
            piece := TextOnlyOf(e);
          }
      }
      ContentTextStep(seg, i, text, piece);
      text := text + piece;
      i := i + 1;
    }
  }

  /** One node of the `textOnly` loop: its piece moves from the rest to the text so far. */
  lemma ContentTextStep(seg: Element, i: nat, text: string, piece: string)
    requires i < |seg.content| && text + ContentText(seg, i) == TextOnly(seg)
    requires piece == match seg.content[i] case Text(t) => t case Child(c) => if IsInline(c) then TextOnly(c) else []
    ensures (text + piece) + ContentText(seg, i + 1) == TextOnly(seg)
  {
    assert ContentText(seg, i) == piece + ContentText(seg, i + 1);
  }

  /** The text of content from position `n + j` on depends only on the nodes from there. */
  lemma {:induction false} ContentTextShift(a: Element, b: Element, n: nat, j: nat)
    requires n <= |a.content| && a.content[n..] == b.content && j <= |b.content|
    ensures ContentText(a, n + j) == ContentText(b, j)
    decreases |b.content| - j
  {
    if j < |b.content| {
      assert a.content[n + j] == a.content[n..][j];
      ContentTextShift(a, b, n, j + 1);
    }
  }

  lemma {:induction false} ContentTextAppend(e: Element, i: nat, more: seq<Node>)
    requires i <= |e.content|
    ensures ContentText(e.(content := e.content + more), i)
         == ContentText(e, i) + ContentText(Element(e.name, e.attributes, more), 0)
    decreases |e.content| - i
  {
    var f := e.(content := e.content + more);
    if i < |e.content| {
      ContentTextAppend(e, i + 1, more);
      assert f.content[i] == e.content[i];
    } else {
      ContentTextShift(f, Element(e.name, e.attributes, more), |e.content|, 0);
    }
  }

  /** Appending content appends its text: textOnly works node by node, in order. */
  lemma TextOnlyAppend(e: Element, more: seq<Node>)
    ensures TextOnly(e.(content := e.content + more)) == TextOnly(e) + TextOnly(Element(e.name, e.attributes, more))
  {
    ContentTextAppend(e, 0, more);
  }

  /** An element other than `sub` and `hi` contributes no text, whatever it contains. */
  lemma TextOnlyDropsOtherElements(e: Element, other: Element)
    requires !IsInline(other)
    ensures TextOnly(e.(content := e.content + [Child(other)])) == TextOnly(e)
  {
    TextOnlyAppend(e, [Child(other)]);
    var single := Element(e.name, e.attributes, [Child(other)]);
    assert ContentText(single, 1) == [];
    assert TextOnly(single) == [];
  }

  /** A text node contributes exactly its text. */
  lemma TextOnlyAppendsText(e: Element, t: string)
    ensures TextOnly(e.(content := e.content + [Text(t)])) == TextOnly(e) + t
  {
    TextOnlyAppend(e, [Text(t)]);
    var single := Element(e.name, e.attributes, [Text(t)]);
    assert ContentText(single, 1) == [];
    assert TextOnly(single) == t;
  }

  // ---------------------------------------------------------------------
  // replaceTags

  const Nbsp: char := '\U{00A0}'

  /** Replacing a tag image by a numbered placeholder removes at least its `<`. */
  lemma PlaceholderRemovesAngle(source: string, index: nat, end: nat, n: nat)
    requires OccursAt(source, "<img ", index) && OccursAt(source[index + 1..], ">", end)
    ensures multiset(source[..index] + "[[" + Decimal(n) + "]]" + source[index + 1..][end + 1..])['<']
          < multiset(source)['<']
  {
    var rest := source[index + 1..];
    assert source[index] == source[index..index + 5][0] == '<';
    assert rest[end] == rest[end..end + 1][0] == '>';
    assert source == source[..index] + [source[index]] + rest[..end] + [rest[end]] + rest[end + 1..] by {
      assert rest == rest[..end] + [rest[end]] + rest[end + 1..];
      assert source == source[..index] + [source[index]] + rest;
    }
    var digits := Decimal(n);
    assert '<' !in digits;
    assert multiset(digits)['<'] == 0;
  }

  /** One round of the first loop of `replaceTags`, on the tag image found at `index`:
      the tag, up to the first `>` after its `<`, is cut out and replaced by placeholder
      `[[n]]`. Without a closing `>` the Java code throws, here `None`. */
  method CutTagImage(source: string, index: int, n: nat) returns (r: Option<(string, string)>)
    requires index != -1 && index == IndexFrom(source, "<img ", 0)
    ensures r.None? <==> IndexFrom(source[index + 1..], ">", 0) == -1
    ensures r.Some? ==> |r.value.1| >= 2 && r.value.1[0] == '<'
    ensures r.Some? ==> multiset(r.value.0)['<'] < multiset(source)['<']
  {
    var rest := source[index + 1..];
    var end := IndexFrom(rest, ">", 0);
    if end < 0 {
      return None;
    }
    var tag := "<" + rest[..end] + ">";
    assert OccursAt(source, "<img ", index) && OccursAt(rest, ">", end) by {
      IndexFromFirst(source, "<img ", 0);
      IndexFromFirst(rest, ">", 0);
    }
    PlaceholderRemovesAngle(source, index, end, n);
    r := Some((source[..index] + "[[" + Decimal(n) + "]]" + rest[end + 1..], tag));
  }

  /** The first loop of `replaceTags`: each `<img ...>` tag image, up to the first `>`
      after it, is replaced by a numbered placeholder `[[n]]`; the tags are collected. */
  method ExtractTagImages(text: string) returns (r: Result<(string, seq<string>)>)
    ensures IndexFrom(text, "<img ", 0) == -1 ==> r == Ok((text, []))
    ensures r.Ok? ==> IndexFrom(r.value.0, "<img ", 0) == -1
    ensures r.Ok? ==> forall k :: 0 <= k < |r.value.1| ==> |r.value.1[k]| >= 2 && r.value.1[k][0] == '<'
  {
    var source := text;
    var index := IndexFrom(source, "<img ", 0);
    var tagNumber: nat := 0;
    var currentTags: seq<string> := [];
    while index >= 0
      invariant index == IndexFrom(source, "<img ", 0)
      invariant tagNumber == |currentTags|
      invariant forall k :: 0 <= k < |currentTags| ==> |currentTags[k]| >= 2 && currentTags[k][0] == '<'
      invariant tagNumber == 0 ==> source == text
      invariant tagNumber > 0 ==> IndexFrom(text, "<img ", 0) != -1
      decreases multiset(source)['<']
    {
      var cut := CutTagImage(source, index, tagNumber);
      if cut.None? {
        return Err("String index out of range: -1");
      }
      source := cut.value.0;
      currentTags := currentTags + [cut.value.1];
      tagNumber := tagNumber + 1;
      index := IndexFrom(source, "<img ", 0);
    }
    return Ok((source, currentTags));
  }

  /** The second loop of `replaceTags`: placeholder `[[i]]` becomes the restored
      text of the title attribute of the i-th tag image. */
  method RestoreTagTitles(text: string, tags: seq<string>) returns (r: Result<string>)
    ensures tags == [] ==> r == Ok(text)
  {
    var source := text;
    var i := 0;
    while i < |tags|
      invariant 0 <= i <= |tags|
      invariant tags == [] ==> source == text
    {
      var tag := tags[i];
      var titleStart := IndexFrom(tag, "title=\"", 0);
      var from := titleStart + 7;
      if from > |tag| {
        return Err("String index out of range");
      }
      var titleEnd := IndexFrom(tag, "\"", from);
      if titleEnd < 0 {
        return Err("String index out of range: -1");
      }
      var code := tag[from..titleEnd];
      source := ReplaceAll(source, "[[" + Decimal(i) + "]]", RestoreAngles(code));
      i := i + 1;
    }
    return Ok(source);
  }

  /** `replaceTags`: the HTML an editing cell returns becomes segment text again.
      `&nbsp;` and `<br>` become a no-break space and a line feed; each `<img ...>`
      tag image is replaced by the tag text carried, escaped, in its title attribute.
      A tag image without a closing `>` or a title without its closing quote makes
      the Java code throw, reported here as an error. */
  method ReplaceTags(s: string) returns (r: Result<string>)
    ensures !Occurs(s, "&nbsp;") && !Occurs(s, "<br>") && !Occurs(s, "<img ") ==> r == Ok(s)
  {
    var source := ReplaceAll(s, "&nbsp;", [Nbsp]);
    source := ReplaceAll(source, "<br>", "\n");
    if !Occurs(s, "&nbsp;") && !Occurs(s, "<br>") && !Occurs(s, "<img ") {
      ReplaceAllAbsent(s, "&nbsp;", [Nbsp]);
      ReplaceAllAbsent(s, "<br>", "\n");
      assert source == s;
      IndexFromFirst(s, "<img ", 0);
    }
    var extracted := ExtractTagImages(source);
    if extracted.Err? {
      return Err(extracted.message);
    }
    var (withPlaceholders, tags) := extracted.value;
    r := RestoreTagTitles(withPlaceholders, tags);
  }

  // ---------------------------------------------------------------------
  // tmxDate

  /** The calendar fields `tmxDate` reads from a GMT calendar; `month` is zero-based as in java.util.Calendar. */
  datatype CalendarFields = CalendarFields(year: nat, month: nat, date: nat, hour: nat, minute: nat, second: nat)

  predicate ValidFields(f: CalendarFields)
  {
    1 <= f.year && f.month < 12 && 1 <= f.date <= 31 && f.hour < 24 && f.minute < 60 && f.second < 60
  }

  /** A field as the source writes it: a leading zero below 10, then the decimal value. */
  function Padded(n: nat): string
  {
    (if n < 10 then "0" else "") + Decimal(n)
  }

  /** Two decimal digits, tens first. */
  function TwoDigits(n: nat): string
    requires n < 100
  {
    [Digit(n / 10), Digit(n % 10)]
  }

  lemma PaddedIsTwoDigits(n: nat)
    requires n < 100
    ensures Padded(n) == TwoDigits(n)
  {
    if n >= 10 {
      assert Decimal(n) == Decimal(n / 10) + [Digit(n % 10)];
    }
  }

  /** `tmxDate`: the creation date in the basic UTC form of ISO 8601,
      year, month, day, `T`, hours, minutes, seconds, `Z`. */
  function TmxDate(f: CalendarFields): (r: string)
    requires ValidFields(f)
    ensures r == Decimal(f.year) + TwoDigits(f.month + 1) + TwoDigits(f.date) + "T"
                 + TwoDigits(f.hour) + TwoDigits(f.minute) + TwoDigits(f.second) + "Z"
  {
    PaddedIsTwoDigits(f.month + 1);
    PaddedIsTwoDigits(f.date);
    PaddedIsTwoDigits(f.hour);
    PaddedIsTwoDigits(f.minute);
    PaddedIsTwoDigits(f.second);
    var sec := Padded(f.second);
    var min := Padded(f.minute);
    var hour := Padded(f.hour);
    var mday := Padded(f.date);
    var mon := (if f.month < 9 then "0" else "") + Decimal(f.month + 1);
    var longyear := Decimal(f.year);
    longyear + mon + mday + "T" + hour + min + sec + "Z"
  }

  predicate AllDigits(s: string)
  {
    forall i :: 0 <= i < |s| ==> '0' <= s[i] <= '9'
  }

  /** A slice of an all-digit slice is all digits. */
  lemma AllDigitsWithin(s: string, i: nat, j: nat, k: nat, l: nat)
    requires i <= k <= l <= j <= |s| && AllDigits(s[i..j])
    ensures AllDigits(s[k..l])
  {
    forall t | 0 <= t < l - k ensures '0' <= s[k..l][t] <= '9' {
      assert s[k..l][t] == s[i..j][t + k - i];
    }
  }

  function TwoDigitValue(s: string): nat
    requires |s| == 2 && AllDigits(s)
  {
    10 * (s[0] as int - 48) + (s[1] as int - 48)
  }

  /** Reads the fields back from a date with a four-digit year. */
  function ParseTmxDate(s: string): Option<CalendarFields>
  {
    if |s| == 16 && s[8] == 'T' && s[15] == 'Z' && AllDigits(s[..8]) && AllDigits(s[9..15]) then
      AllDigitsWithin(s, 0, 8, 0, 4);
      AllDigitsWithin(s, 0, 8, 4, 6);
      AllDigitsWithin(s, 0, 8, 6, 8);
      AllDigitsWithin(s, 9, 15, 9, 11);
      AllDigitsWithin(s, 9, 15, 11, 13);
      AllDigitsWithin(s, 9, 15, 13, 15);
      var month := TwoDigitValue(s[4..6]);
      if month == 0 then None
      else Some(CalendarFields(DigitsValue(s[..4]), month - 1, TwoDigitValue(s[6..8]),
                               TwoDigitValue(s[9..11]), TwoDigitValue(s[11..13]), TwoDigitValue(s[13..15])))
    else None
  }

  lemma DecimalFourDigits(n: nat)
    requires 1000 <= n <= 9999
    ensures |Decimal(n)| == 4
  {
    assert Decimal(n) == Decimal(n / 10) + [Digit(n % 10)];
    assert Decimal(n / 10) == Decimal(n / 100) + [Digit((n / 10) % 10)];
    assert Decimal(n / 100) == Decimal(n / 1000) + [Digit((n / 100) % 10)];
  }

  lemma TwoDigitsValue(n: nat)
    requires n < 100
    ensures AllDigits(TwoDigits(n)) && TwoDigitValue(TwoDigits(n)) == n
  {
  }

  /** Where each field stands in a date with a four-digit year. */
  lemma DateLayout(y: string, mo: string, d: string, h: string, mi: string, se: string)
    requires |y| == 4 && |mo| == 2 && |d| == 2 && |h| == 2 && |mi| == 2 && |se| == 2
    requires AllDigits(y) && AllDigits(mo) && AllDigits(d) && AllDigits(h) && AllDigits(mi) && AllDigits(se)
    ensures var r := y + mo + d + "T" + h + mi + se + "Z";
            |r| == 16 && r[8] == 'T' && r[15] == 'Z'
            && r[..8] == y + mo + d && r[9..15] == h + mi + se
            && r[..4] == y && r[4..6] == mo && r[6..8] == d
            && r[9..11] == h && r[11..13] == mi && r[13..15] == se
            && AllDigits(r[..8]) && AllDigits(r[9..15])
  {
  }

  /** For the years of the Gregorian calendar with four digits, the date is 16
      characters long and every field can be read back from it. */
  lemma TmxDateRoundTrip(f: CalendarFields)
    requires ValidFields(f) && 1000 <= f.year <= 9999
    ensures |TmxDate(f)| == 16
    ensures ParseTmxDate(TmxDate(f)) == Some(f)
  {
    var y := Decimal(f.year);
    DecimalFourDigits(f.year);
    DecimalValue(f.year);
    TwoDigitsValue(f.month + 1);
    TwoDigitsValue(f.date);
    TwoDigitsValue(f.hour);
    TwoDigitsValue(f.minute);
    TwoDigitsValue(f.second);
    DateLayout(y, TwoDigits(f.month + 1), TwoDigits(f.date), TwoDigits(f.hour), TwoDigits(f.minute), TwoDigits(f.second));
  }
}
