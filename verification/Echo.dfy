/** Sending a text and reading it back: the outbound formatter against the inbound normalizer. */
module Echo {
  import opened Text
  import opened Html
  import opened HtmlTree
  import opened Sanitizer

  // ----- line ends

  /** strings.ReplaceAll(s, "\r\n", "\n") */
  function ReplaceCRLF(s: string): string {
    if s == "" then ""
    else if "\r\n" <= s then "\n" + ReplaceCRLF(s[2..])
    else [s[0]] + ReplaceCRLF(s[1..])
  }

  /** strings.ReplaceAll(s, "\r", "\n") */
  function ReplaceCR(s: string): string {
    if s == "" then "" else [if s[0] == '\r' then '\n' else s[0]] + ReplaceCR(s[1..])
  }

  function UnixLines(s: string): string {
    ReplaceCR(ReplaceCRLF(s))
  }

  /** The number of newlines that `s` starts with. */
  function LeadingNewlines(s: string): (n: nat)
    ensures n <= |s| && (forall i | 0 <= i < n :: s[i] == '\n') && (n < |s| ==> s[n] != '\n')
  {
    if s == "" || s[0] != '\n' then 0 else 1 + LeadingNewlines(s[1..])
  }

  /** The pattern \n{3,} replaced by two newlines. */
  function ShortenRuns(s: string): string
    decreases |s|
  {
    if s == "" then ""
    else
      var n := LeadingNewlines(s);
      if n >= 3 then "\n\n" + ShortenRuns(s[n..])
      else if n > 0 then s[..n] + ShortenRuns(s[n..])
      else [s[0]] + ShortenRuns(s[1..])
  }

  function NormalizePlainText(value: string): string {
    TrimSpace(ShortenRuns(UnixLines(value)))
  }

  // ----- inbound

  predicate RegexSpace(c: char) {
    c == ' ' || c == '\t' || c == '\n' || c == '\U{000C}' || c == '\r'
  }

  /** Letters of the case-insensitive class [a-z], with the two characters that fold into it. */
  predicate TagLetter(c: char) {
    'a' <= c <= 'z' || 'A' <= c <= 'Z' || c == '\U{017F}' || c == '\U{212A}'
  }

  /** Blanks with at most one slash among them. */
  predicate TagGap(s: string) {
    exists k | 0 <= k <= |s| :: BlankAround(s, k)
  }

  predicate BlankAround(s: string, k: nat)
    requires k <= |s|
  {
    && (forall i | 0 <= i < k :: RegexSpace(s[i]))
    && (k < |s| ==> s[k] == '/' || RegexSpace(s[k]))
    && (forall i | k < i < |s| :: RegexSpace(s[i]))
  }

  predicate TagAt(s: string, open: nat, letter: nat, close: nat) {
    && open < letter < close < |s|
    && s[open] == '<' && TagGap(s[open + 1..letter]) && TagLetter(s[letter])
    && (forall i | letter < i < close :: s[i] != '>') && s[close] == '>'
  }

  /** The pattern of looksLikeHTML occurs in the text. */
  ghost predicate LooksLikeHTML(s: string) {
    exists open: nat, letter: nat, close: nat :: TagAt(s, open, letter, close)
  }

  datatype Content = Content(body: string, formattedBody: string)

  /** What html.UnescapeString and nethtml.Parse make of a text; the fragment is the content of the wrapper div. */
  datatype HtmlLibrary = HtmlLibrary(unescape: string -> string, fragment: string -> Option<Dom>)

  /** normalizeHTMLFragment after parsing. */
  function FragmentContent(scheme: UrlScheme, d: Dom): Content {
    Content(NormalizePlainText(Plain("", d)), if WritesTag(d) then TrimSpace(Formatted(scheme, d)) else "")
  }

  /** The same with the two builders of the program. */
  method NormalizeFragment(scheme: UrlScheme, nodes: Dom) returns (content: Content)
    ensures content == FragmentContent(scheme, nodes)
  {
    hide TrimSpace, FormattedNode, PlainNode, NodeWritesTag, ShortenRuns, UnixLines;
    var plain := new Builder();
    var formatted := new Builder();
    var renderedTag := false;
    var node := nodes;
    ghost var written := "";
    while !node.End?
      invariant fresh(plain) && fresh(formatted) && plain != formatted
      invariant Plain(plain.text, node) == Plain("", nodes)
      invariant formatted.text == written
      invariant written + Formatted(scheme, node) == Formatted(scheme, nodes)
      invariant renderedTag || WritesTag(node) <==> WritesTag(nodes)
      decreases node
    {
      RenderPlainNode(plain, node);
      var here := RenderFormattedNode(scheme, formatted, node);
      written := written + FormattedNode(scheme, node);
      renderedTag := renderedTag || here;
      node := node.next;
    }
    assert written + "" == written;
    content := Content(NormalizePlainText(plain.text), if renderedTag then TrimSpace(formatted.text) else "");
  }

  ghost function NormalizeMessageBody(lib: HtmlLibrary, scheme: UrlScheme, raw: string): Content {
    var normalized := NormalizePlainText(lib.unescape(raw));
    if normalized == "" then Content("", "")
    else if !LooksLikeHTML(raw) then Content(normalized, "")
    else
      match lib.fragment(raw)
      case None => Content(normalized, "")
      case Some(d) =>
        var content := FragmentContent(scheme, d);
        if content.body == "" then Content("", "") else content
  }

  // ----- outbound

  function BreakLines(escaped: string): string {
    if escaped == "" then ""
    else (if escaped[0] == '\n' then "<br>" else [escaped[0]]) + BreakLines(escaped[1..])
  }

  /** formatHTMLContent */
  function FormatContent(text: string): string {
    "<p>" + BreakLines(Escape(UnixLines(text))) + "</p>"
  }

  // ----- what normalizing does to a text, from left to right

  /** A carriage return with a newline after it, and one without, become a newline; everything else stays. */
  lemma {:induction false} LineEndsUnified(a: string, b: string)
    requires NoReturns(a)
    ensures UnixLines(a) == a
    ensures UnixLines(a + "\r\n" + b) == a + "\n" + UnixLines(b)
    ensures b == "" || b[0] != '\n' ==> UnixLines(a + "\r" + b) == a + "\n" + UnixLines(b)
  {
    if a == "" {
      FirstLineEnd(b);
      hide UnixLines;
      assert "" + "\r\n" + b == "\r\n" + b && "" + "\r" + b == "\r" + b;
      assert "" + "\n" + UnixLines(b) == "\n" + UnixLines(b);
    } else {
      LineEndsUnified(a[1..], b);
      OtherCharStays(a[0], a[1..]);
      OtherCharStays(a[0], a[1..] + "\r\n" + b);
      OtherCharStays(a[0], a[1..] + "\r" + b);
      hide UnixLines;
      assert a == [a[0]] + a[1..];
      assert a + "\r\n" + b == [a[0]] + (a[1..] + "\r\n" + b);
      assert a + "\r" + b == [a[0]] + (a[1..] + "\r" + b);
    }
  }

  lemma FirstLineEnd(b: string)
    ensures UnixLines("") == ""
    ensures UnixLines("\r\n" + b) == "\n" + UnixLines(b)
    ensures b == "" || b[0] != '\n' ==> UnixLines("\r" + b) == "\n" + UnixLines(b)
  {
    assert ("\r\n" + b)[2..] == b && "\r\n" <= "\r\n" + b;
    assert ("\r" + b)[1..] == b;
    ReplacedCons('\n', ReplaceCRLF(b));
    ReplacedCons('\r', ReplaceCRLF(b));
    assert b != "" && b[0] != '\n' ==> ("\r" + b)[1] == b[0];
  }

  lemma ReplacedCons(c: char, s: string)
    ensures ReplaceCR([c] + s) == [if c == '\r' then '\n' else c] + ReplaceCR(s)
  {
    assert ([c] + s)[1..] == s;
  }

  lemma OtherCharStays(c: char, s: string)
    requires c != '\r'
    ensures UnixLines([c] + s) == [c] + UnixLines(s)
  {
    assert ([c] + s)[1..] == s;
    assert ([c] + s)[0] == c;
    ReplacedCons(c, ReplaceCRLF(s));
  }

  predicate NoThreeNewlines(s: string) {
    forall i | 0 <= i < |s| - 2 :: !(s[i] == '\n' && s[i + 1] == '\n' && s[i + 2] == '\n')
  }

  predicate Newlines(s: string) {
    forall i | 0 <= i < |s| :: s[i] == '\n'
  }

  lemma NoThreeAfter(s: string, k: nat)
    requires NoThreeNewlines(s) && k <= |s|
    ensures NoThreeNewlines(s[k..])
    ensures LeadingNewlines(s) < 3
  {
    var rest := s[k..];
    forall i | 0 <= i < |rest| - 2
      ensures !(rest[i] == '\n' && rest[i + 1] == '\n' && rest[i + 2] == '\n')
    {
      var j := k + i;
      assert rest[i] == s[j] && rest[i + 1] == s[j + 1] && rest[i + 2] == s[j + 2];
    }
  }

  /** How many characters one step of shortening keeps. */
  function StepLength(s: string): (k: nat)
    requires s != ""
    ensures 0 < k <= |s|
  {
    if LeadingNewlines(s) == 0 then 1 else LeadingNewlines(s)
  }

  /** Runs of three newlines and more become two; everything else stays. */
  lemma {:induction false} RunsShortened(a: string, run: string, b: string)
    requires NoThreeNewlines(a) && (a == "" || a[|a| - 1] != '\n')
    requires Newlines(run) && |run| >= 3 && (b == "" || b[0] != '\n')
    ensures ShortenRuns(a + run + b) == a + "\n\n" + ShortenRuns(b)
    decreases |a|
  {
    hide ShortenRuns, NoThreeNewlines, Newlines, LeadingNewlines, StepLength;
    if a == "" {
      RunAlone(run, b);
      Joined(a, 0, run, b);
      Joined(a, 0, "\n\n", ShortenRuns(b));
      assert a + (run + b) == run + b && a + ("\n\n" + ShortenRuns(b)) == "\n\n" + ShortenRuns(b);
    } else {
      var k := StepLength(a);
      NoThreeAfter(a, k);
      RunsShortened(a[k..], run, b);
      StepOver(a, run + b);
      Joined(a, k, run, b);
      Joined(a, k, "\n\n", ShortenRuns(b));
    }
  }

  lemma Joined(a: string, k: nat, run: string, b: string)
    requires k <= |a|
    ensures a + run + b == a + (run + b)
    ensures a[k..] + run + b == a[k..] + (run + b)
    ensures a[..k] + (a[k..] + run + b) == a + run + b
  {
  }

  lemma RunAlone(run: string, b: string)
    requires Newlines(run) && |run| >= 3 && (b == "" || b[0] != '\n')
    ensures ShortenRuns(run + b) == "\n\n" + ShortenRuns(b)
  {
    RunLength(run, b);
    hide Newlines, LeadingNewlines;
    assert (run + b)[|run|..] == b;
  }

  lemma StepOver(a: string, more: string)
    requires a != "" && a[|a| - 1] != '\n' && LeadingNewlines(a) < 3
    ensures var k := StepLength(a); ShortenRuns(a + more) == a[..k] + ShortenRuns(a[k..] + more)
  {
    LeadingOfAppend(a, more);
    ShortenStep(a + more);
    hide ShortenRuns, LeadingNewlines;
    var k := StepLength(a);
    assert (a + more)[..k] == a[..k] && (a + more)[k..] == a[k..] + more;
  }

  lemma ShortenStep(s: string)
    requires s != "" && LeadingNewlines(s) < 3
    ensures ShortenRuns(s) == s[..StepLength(s)] + ShortenRuns(s[StepLength(s)..])
  {
    assert s[..1] == [s[0]];
  }

  lemma RunLength(run: string, b: string)
    requires Newlines(run) && (b == "" || b[0] != '\n')
    ensures LeadingNewlines(run + b) == |run|
  {
    var s := run + b;
    assert forall i | 0 <= i < |run| :: s[i] == '\n';
    assert b != "" ==> s[|run|] == b[0];
  }

  lemma LeadingOfAppend(a: string, more: string)
    requires a != "" && a[|a| - 1] != '\n'
    ensures LeadingNewlines(a) < |a|
    ensures LeadingNewlines(a + more) == LeadingNewlines(a)
  {
    var n := LeadingNewlines(a);
    assert forall i | 0 <= i < n :: (a + more)[i] == a[i];
    assert (a + more)[n] == a[n];
  }

  lemma {:induction false} ShortRunsStay(s: string)
    requires NoThreeNewlines(s)
    ensures ShortenRuns(s) == s
    decreases |s|
  {
    if s != "" {
      hide ShortenRuns, NoThreeNewlines, LeadingNewlines, StepLength;
      var k := StepLength(s);
      NoThreeAfter(s, k);
      ShortRunsStay(s[k..]);
      ShortenStep(s);
      Splits(s, k);
    }
  }

  lemma Splits(s: string, k: nat)
    requires k <= |s|
    ensures s == s[..k] + s[k..]
  {
  }

  predicate Blanks(s: string) {
    forall i | 0 <= i < |s| :: s[i] == ' ' || s[i] == '\t' || s[i] == '\n' || s[i] == '\U{000C}' || s[i] == '\r'
  }

  /** Blanks, perhaps a slash, and blanks. */
  ghost predicate IsGap(gap: string) {
    exists left, slash, right ::
      gap == left + slash + right && Blanks(left) && Blanks(right) && (slash == "" || slash == "/")
  }

  /** What starts a tag: such a gap, a letter, and no '>' up to the first one. */
  predicate OpensTag(letter: char, inside: string) {
    && ('a' <= letter <= 'z' || 'A' <= letter <= 'Z' || letter == '\U{017F}' || letter == '\U{212A}')
    && '>' !in inside
  }

  ghost predicate HoldsTag(s: string) {
    exists before, gap, letter, inside, after ::
      s == before + "<" + gap + [letter] + inside + ">" + after && IsGap(gap) && OpensTag(letter, inside)
  }

  lemma GapMeans(gap: string)
    ensures TagGap(gap) <==> IsGap(gap)
  {
    if k :| 0 <= k <= |gap| && BlankAround(gap, k) {
      if k < |gap| && gap[k] == '/' {
        assert gap == gap[..k] + "/" + gap[k + 1..];
        assert Blanks(gap[..k]) && Blanks(gap[k + 1..]);
      } else {
        assert gap == gap + "" + "";
        assert Blanks(gap);
      }
    }
    if IsGap(gap) {
      var left, slash, right :|
        gap == left + slash + right && Blanks(left) && Blanks(right) && (slash == "" || slash == "/");
      SlashAround(gap, left, slash, right);
    }
  }

  lemma SlashAround(gap: string, left: string, slash: string, right: string)
    requires gap == left + slash + right && Blanks(left) && Blanks(right) && (slash == "" || slash == "/")
    ensures TagGap(gap)
  {
    var k := |left|;
    assert forall i | 0 <= i < k :: gap[i] == left[i];
    assert forall i | k + |slash| <= i < |gap| :: gap[i] == right[i - k - |slash|];
    assert BlankAround(gap, k);
  }

  /** A text looks like HTML exactly when it holds something that reads as a tag. */
  lemma LooksLikeHTMLIff(s: string)
    ensures LooksLikeHTML(s) <==> HoldsTag(s)
  {
    if open: nat, letter: nat, close: nat :| TagAt(s, open, letter, close) {
      TagCut(s, open, letter, close);
    }
    if HoldsTag(s) {
      var before, gap, letter, inside, after :|
        s == before + "<" + gap + [letter] + inside + ">" + after && IsGap(gap) && OpensTag(letter, inside);
      TagFound(s, before, gap, letter, inside, after);
    }
  }

  lemma TagCut(s: string, open: nat, letter: nat, close: nat)
    requires TagAt(s, open, letter, close)
    ensures HoldsTag(s)
  {
    var before, gap, inside, after := s[..open], s[open + 1..letter], s[letter + 1..close], s[close + 1..];
    GapMeans(gap);
    hide TagGap, IsGap;
    assert OpensTag(s[letter], inside);
    assert s == before + "<" + gap + [s[letter]] + inside + ">" + after;
  }

  lemma TagFound(s: string, before: string, gap: string, letter: char, inside: string, after: string)
    requires s == before + "<" + gap + [letter] + inside + ">" + after && IsGap(gap) && OpensTag(letter, inside)
    ensures LooksLikeHTML(s)
  {
    GapMeans(gap);
    hide TagGap, IsGap;
    var open, at := |before|, |before + "<" + gap|;
    var close := at + 1 + |inside|;
    assert s[open] == '<' && s[at] == letter && s[close] == '>';
    assert s[open + 1..at] == gap;
    assert s[at + 1..close] == inside;
    assert forall i | at < i < close :: s[i] == inside[i - at - 1];
    assert TagAt(s, open, at, close);
  }

  /** A text that holds no tag, or that does not parse, comes out unescaped and normalized without a formatted body; a
      text of which nothing is left then comes out empty, tags or not. */
  lemma PlainTextStaysPlain(lib: HtmlLibrary, scheme: UrlScheme, raw: string)
    requires !HoldsTag(raw) || lib.fragment(raw).None? || NormalizePlainText(lib.unescape(raw)) == ""
    ensures NormalizeMessageBody(lib, scheme, raw) == Content(NormalizePlainText(lib.unescape(raw)), "")
  {
    LooksLikeHTMLIff(raw);
    hide NormalizePlainText, LooksLikeHTML, HoldsTag;
  }

  /** Any other text comes out as both renderings of its parsed fragment, the formatted one only if a tag was written;
      without any plain text it comes out empty. */
  lemma MarkupIsRendered(lib: HtmlLibrary, scheme: UrlScheme, raw: string)
    requires HoldsTag(raw) && lib.fragment(raw).Some? && NormalizePlainText(lib.unescape(raw)) != ""
    ensures var content, d := NormalizeMessageBody(lib, scheme, raw), lib.fragment(raw).value;
            && content.body == NormalizePlainText(Plain("", d))
            && content.formattedBody ==
                 if content.body != "" && HasTag(Clean(scheme, d)) then TrimSpace(Print(Clean(scheme, d))) else ""
  {
    LooksLikeHTMLIff(raw);
    var d := lib.fragment(raw).value;
    FormattedIsPrinted(scheme, d);
    FlagIffTagWritten(scheme, d);
    hide NormalizePlainText, LooksLikeHTML, HoldsTag, Clean, HasTag, Print, TrimSpace;
  }

  // ----- the sent markup is a paragraph of lines

  function Lines(s: string): Tree {
    if s == "" then Nil
    else if s[0] == '\n' then Br(Lines(s[1..]))
    else Chr(s[0], Lines(s[1..]))
  }

  function Paragraph(text: string): Tree {
    Tag("p", None, Lines(UnixLines(text)), Nil)
  }

  lemma BreakLinesCons(c: char, s: string)
    ensures BreakLines([c] + s) == (if c == '\n' then "<br>" else [c]) + BreakLines(s)
  {
    assert ([c] + s)[1..] == s;
  }

  lemma {:induction false} BreakLinesAppend(a: string, b: string)
    ensures BreakLines(a + b) == BreakLines(a) + BreakLines(b)
  {
    NoNewlines("");
    hide BreakLines;
    if a == "" {
      assert a + b == b;
    } else {
      BreakLinesAppend(a[1..], b);
      BreakLinesCons(a[0], a[1..] + b);
      BreakLinesCons(a[0], a[1..]);
      assert a + b == [a[0]] + (a[1..] + b) && a == [a[0]] + a[1..];
    }
  }

  lemma BreakLinesOfChar(c: char)
    ensures BreakLines(EscapeChar(c)) == if c == '\n' then "<br>" else EscapeChar(c)
  {
    var s := EscapeChar(c);
    NoNewlines(s);
    if c == '\n' {
      assert s[1..] == "";
    }
  }

  lemma {:induction false} NoNewlines(s: string)
    ensures '\n' !in s ==> BreakLines(s) == s
  {
    if s != "" && '\n' !in s {
      NoNewlines(s[1..]);
      assert s == [s[0]] + s[1..];
    }
  }

  lemma {:induction false} LinesPrinted(s: string)
    ensures Print(Lines(s)) == BreakLines(Escape(s))
  {
    hide EscapeChar, Print;
    if s == "" {
      PrintNil();
    } else {
      LinesPrinted(s[1..]);
      BreakLinesAppend(EscapeChar(s[0]), Escape(s[1..]));
      BreakLinesOfChar(s[0]);
      PrintBr(Lines(s[1..]));
      PrintChr(s[0], Lines(s[1..]));
    }
  }

  lemma {:induction false} LinesWellFormed(s: string)
    ensures WellFormed(Lines(s))
  {
    if s != "" {
      LinesWellFormed(s[1..]);
    }
  }

  lemma {:induction false} LinesSafe(scheme: UrlScheme, s: string)
    ensures SafeLinks(scheme, Lines(s))
  {
    if s != "" {
      LinesSafe(scheme, s[1..]);
    }
  }

  lemma ContentIsParagraph(text: string)
    ensures FormatContent(text) == Print(Paragraph(text))
    ensures WellFormed(Paragraph(text))
    ensures Parse(FormatContent(text)) == Some(Paragraph(text))
  {
    var s := UnixLines(text);
    LinesPrinted(s);
    LinesWellFormed(s);
    PrintTag("p", None, Lines(s), Nil);
    PrintNil();
    assert OpenTag("p", None) == "<p>" && CloseTag("p") == "</p>";
    assert WellFormed(Paragraph(text)) by {
      assert IsPaired("p");
    }
    hide Print, UnixLines, Parse;
    assert "<p>" + BreakLines(Escape(s)) + "</p>" + "" == "<p>" + BreakLines(Escape(s)) + "</p>";
    ParsePrint(Paragraph(text));
  }

  // ----- the plain text of a paragraph of lines

  function PlainTree(text: string, t: Tree): string
    decreases t
  {
    match t
    case Nil => text
    case Chr(c, next) => PlainTree(text + [c], next)
    case Br(next) => PlainTree(WithNewline(text), next)
    case Tag(name, _, first, next) =>
      var shown :=
        if IsBlock(name) then WithNewline(PlainTree(WithNewline(text), first)) else PlainTree(text, first);
      PlainTree(shown, next)
  }

  lemma {:induction false} PlainTreeOfChars(text: string, s: string, next: Tree)
    ensures PlainTree(text, Chars(s, next)) == PlainTree(text + s, next)
    decreases s
  {
    if s == "" {
      assert text + s == text;
    } else {
      PlainTreeOfChars(text + [s[0]], s[1..], next);
      assert text + [s[0]] + s[1..] == text + s;
    }
  }

  /** The plain renderer sees only what a DOM spells. */
  lemma {:induction false} PlainOfSpelled(text: string, d: Dom, t: Tree)
    requires Spelled(d) == Some(t) && WellFormed(t)
    ensures Plain(text, d) == PlainTree(text, t)
    decreases d
  {
    hide ToLower, IsAllowed, IsUnsafe, IsBlock, WithNewline;
    match d
    case End =>
    case TextNode(data, next) =>
      CharsInjective(data, Spelled(next).value, t);
      PlainOfSpelled(text + data, next, Spelled(next).value);
      PlainTreeOfChars(text, data, Spelled(next).value);
    case Element(name, attributes, first, next) =>
      PlainOfSpelled(PlainNode(text, d), next, t.next);
      if name == "br" {
        BrIsAllowed();
        LowerName("br");
      } else {
        LowerName(name);
        PlainOfSpelled(text, first, t.first);
        PlainOfSpelled(WithNewline(text), first, t.first);
      }
  }

  /** Every run of newlines as one. */
  function OneNewline(s: string): string {
    if s == "" then ""
    else if "\n\n" <= s then OneNewline(s[1..])
    else [s[0]] + OneNewline(s[1..])
  }

  function WithoutLeading(s: string): string {
    s[LeadingNewlines(s)..]
  }

  /** The builder so far takes a newline: it is not empty and does not end in one. */
  predicate Open(text: string) {
    text != "" && text[|text| - 1] != '\n'
  }

  /** Rendering lines appends them with every run of newlines collapsed; newlines at the start of the text, or right
      after one, are dropped. */
  lemma {:induction false} PlainOfLines(text: string, s: string)
    ensures PlainTree(text, Lines(s)) == text + OneNewline(if Open(text) then s else WithoutLeading(s))
    decreases s
  {
    if s == "" {
      assert WithoutLeading(s) == "";
      assert text + "" == text;
    } else if s[0] == '\n' {
      PlainOfLines(WithNewline(text), s[1..]);
      LeadingNewlineDropped(s);
      if Open(text) {
        OneNewlineOfRun(s);
        assert text + "\n" + OneNewline(WithoutLeading(s)) == text + ("\n" + OneNewline(WithoutLeading(s)));
      }
    } else {
      PlainOfLines(text + [s[0]], s[1..]);
      assert WithoutLeading(s) == s;
      assert OneNewline(s) == [s[0]] + OneNewline(s[1..]);
      assert text + [s[0]] + OneNewline(s[1..]) == text + ([s[0]] + OneNewline(s[1..]));
    }
  }

  lemma LeadingNewlineDropped(s: string)
    requires s != "" && s[0] == '\n'
    ensures WithoutLeading(s) == WithoutLeading(s[1..])
  {
  }

  lemma {:induction false} OneNewlineOfRun(s: string)
    requires s != "" && s[0] == '\n'
    ensures OneNewline(s) == "\n" + OneNewline(WithoutLeading(s))
  {
    LeadingNewlineDropped(s);
    if |s| > 1 && s[1] == '\n' {
      assert "\n\n" <= s;
      OneNewlineOfRun(s[1..]);
    } else {
      assert WithoutLeading(s) == s[1..];
      assert !("\n\n" <= s);
    }
  }

  // ----- normalizing what was collapsed

  predicate NoBlankLine(s: string) {
    forall i | 0 <= i < |s| - 1 :: !(s[i] == '\n' && s[i + 1] == '\n')
  }

  lemma {:induction false} OneNewlineLeavesNoBlankLine(s: string)
    ensures NoBlankLine(OneNewline(s))
    ensures OneNewline(s) != "" ==> s != "" && OneNewline(s)[0] == s[0]
  {
    if s != "" {
      OneNewlineLeavesNoBlankLine(s[1..]);
    }
  }

  lemma {:induction false} NoBlankLineUnchanged(s: string)
    requires NoBlankLine(s)
    ensures OneNewline(s) == s && ShortenRuns(s) == s
  {
    if s != "" {
      NoBlankLineUnchanged(s[1..]);
      StartsBlankLine(s);
      assert s == [s[0]] + s[1..];
      var n := LeadingNewlines(s);
      assert n <= 1;
      if n == 1 {
        assert s[..1] == [s[0]];
      }
    }
  }

  lemma StartsBlankLine(s: string)
    ensures "\n\n" <= s <==> |s| >= 2 && s[0] == '\n' && s[1] == '\n'
  {
    assert |s| >= 2 ==> s[..2] == [s[0], s[1]];
  }

  predicate NoReturns(s: string) {
    forall i | 0 <= i < |s| :: s[i] != '\r'
  }

  lemma {:induction false} NoReturnsUnchanged(s: string)
    requires NoReturns(s)
    ensures ReplaceCRLF(s) == s && ReplaceCR(s) == s
  {
    if s != "" {
      NoReturnsUnchanged(s[1..]);
      assert s == [s[0]] + s[1..];
    }
  }

  lemma {:induction false} ReplaceCRLeavesNone(s: string)
    ensures NoReturns(ReplaceCR(s))
  {
    if s != "" {
      ReplaceCRLeavesNone(s[1..]);
    }
  }

  lemma {:induction false} OneNewlineNoReturns(s: string)
    requires NoReturns(s)
    ensures NoReturns(OneNewline(s))
  {
    if s != "" {
      OneNewlineNoReturns(s[1..]);
    }
  }

  /** Blank margins do not matter to TrimSpace. */
  lemma TrimIgnoresMargins(left: string, core: string, right: string)
    requires AllSpace(left) && AllSpace(right)
    ensures TrimSpace(left + core + right) == TrimSpace(core)
  {
    var l, r := TrimSpaceSplits(core);
    TrimSpaceIsTrimmed(core);
    assert left + core + right == (left + l) + TrimSpace(core) + (r + right);
    TrimSpaceUnique(left + l, TrimSpace(core), r + right);
  }

  /** What a sent text looks like when it comes back. */
  function Returned(text: string): string {
    TrimSpace(OneNewline(UnixLines(text)))
  }

  lemma ParagraphPlainText(text: string)
    ensures NormalizePlainText(PlainTree("", Paragraph(text))) == Returned(text)
  {
    var s := UnixLines(text);
    ReplaceCRLeavesNone(ReplaceCRLF(text));
    assert NoReturns(WithoutLeading(s));
    hide UnixLines, TrimSpace, LeadingNewlines, OneNewline, ShortenRuns;
    var core := OneNewline(WithoutLeading(s));
    PlainOfLines("", s);
    assert IsBlock("p");
    assert "" + core == core;
    assert PlainTree("", Paragraph(text)) == WithNewline(core);
    CoreNormalized(WithoutLeading(s));
    TrimDropsLeading(s);
  }

  /** A collapsed text with a newline put after it is only trimmed. */
  lemma CoreNormalized(s: string)
    requires NoReturns(s)
    ensures NormalizePlainText(WithNewline(OneNewline(s))) == TrimSpace(OneNewline(s))
  {
    hide UnixLines, TrimSpace, OneNewline, ShortenRuns;
    var core := OneNewline(s);
    var plain := WithNewline(core);
    OneNewlineLeavesNoBlankLine(s);
    NoBlankLineUnchanged(plain);
    OneNewlineNoReturns(s);
    UnixLinesUnchanged(plain);
    var right := plain[|core|..];
    assert plain == "" + core + right;
    TrimIgnoresMargins("", core, right);
  }

  lemma TrimDropsLeading(s: string)
    ensures TrimSpace(OneNewline(WithoutLeading(s))) == TrimSpace(OneNewline(s))
  {
    var core := OneNewline(WithoutLeading(s));
    if s != "" && s[0] == '\n' {
      OneNewlineOfRun(s);
      hide TrimSpace, OneNewline, LeadingNewlines;
      assert OneNewline(s) == "\n" + core + "";
      TrimIgnoresMargins("\n", core, "");
    } else {
      NothingLeading(s);
    }
  }

  lemma NothingLeading(s: string)
    requires s == "" || s[0] != '\n'
    ensures WithoutLeading(s) == s
  {
  }

  lemma UnixLinesUnchanged(s: string)
    requires NoReturns(s)
    ensures UnixLines(s) == s
  {
    NoReturnsUnchanged(s);
  }

  // ----- the round trip

  /** A library that parses allowed markup into a DOM spelling it out, and unescapes nothing before the first '&'. */
  ghost predicate ReadsSentMarkup(lib: HtmlLibrary, raw: string) {
    && lib.fragment(raw).Some?
    && Spelled(lib.fragment(raw).value) == Parse(raw)
    && "<p>" <= lib.unescape(raw)
  }

  lemma SentLooksLikeHTML(text: string)
    ensures LooksLikeHTML(FormatContent(text))
  {
    var raw := FormatContent(text);
    assert raw[1..1] == "";
    assert BlankAround(raw[1..1], 0);
    assert TagAt(raw, 0, 1, 2);
  }

  lemma {:induction false} UnixLinesKeepsFirst(s: string)
    requires s != "" && s[0] != '\r' && s[0] != '\n'
    ensures UnixLines(s) != "" && UnixLines(s)[0] == s[0]
  {
  }

  lemma ShortenKeepsFirst(s: string)
    requires s != "" && s[0] != '\n'
    ensures ShortenRuns(s) != "" && ShortenRuns(s)[0] == s[0]
  {
  }

  lemma NonBlankStays(s: string)
    requires s != "" && !IsSpace(s[0])
    ensures TrimSpace(s) != ""
  {
    var l, r := TrimSpaceSplits(s);
    assert (l + TrimSpace(s) + r)[0] == s[0];
  }

  lemma SentIsNotBlank(unescaped: string)
    requires "<p>" <= unescaped
    ensures NormalizePlainText(unescaped) != ""
  {
    assert unescaped[0] == '<';
    UnixLinesKeepsFirst(unescaped);
    hide UnixLines;
    ShortenKeepsFirst(UnixLines(unescaped));
    hide ShortenRuns;
    NonBlankStays(ShortenRuns(UnixLines(unescaped)));
  }

  lemma SentIsRendered(lib: HtmlLibrary, scheme: UrlScheme, text: string)
    requires ReadsSentMarkup(lib, FormatContent(text))
    ensures var content := NormalizeMessageBody(lib, scheme, FormatContent(text));
            var d := lib.fragment(FormatContent(text)).value;
            && content.body == NormalizePlainText(Plain("", d))
            && content.formattedBody ==
                 if content.body != "" && HasTag(Clean(scheme, d)) then TrimSpace(Print(Clean(scheme, d))) else ""
  {
    var raw := FormatContent(text);
    SentLooksLikeHTML(text);
    LooksLikeHTMLIff(raw);
    hide FormatContent, NormalizeMessageBody, HoldsTag, LooksLikeHTML, NormalizePlainText, Plain, HasTag, Clean, Print,
         TrimSpace, Spelled, Parse;
    SentIsNotBlank(lib.unescape(raw));
    MarkupIsRendered(lib, scheme, raw);
  }

  lemma SentIsParagraph(lib: HtmlLibrary, scheme: UrlScheme, text: string)
    requires ReadsSentMarkup(lib, FormatContent(text))
    ensures var d := lib.fragment(FormatContent(text)).value;
            && NormalizePlainText(Plain("", d)) == Returned(text)
            && Clean(scheme, d) == Paragraph(text)
  {
    var d, t := lib.fragment(FormatContent(text)).value, Paragraph(text);
    ContentIsParagraph(text);
    LinesSafe(scheme, UnixLines(text));
    assert SafeLinks(scheme, t);
    hide FormatContent, Paragraph, Spelled, Parse, Plain, PlainTree, Clean, NormalizePlainText, Returned, WellFormed,
         SafeLinks;
    PlainOfSpelled("", d, t);
    ParagraphPlainText(text);
    CleanOfSpelled(scheme, d, t);
  }

  lemma SentIsTrimmed(text: string)
    ensures HasTag(Paragraph(text))
    ensures TrimSpace(FormatContent(text)) == FormatContent(text)
  {
    TrimSpaceOfTrimmed(FormatContent(text));
  }

  /** For every text: what Matrix sends comes back with line ends unified, every run of newlines as one newline and
      the margins trimmed; and unless nothing is left, the formatted body is exactly the markup that was sent. */
  lemma EchoRoundTrip(lib: HtmlLibrary, scheme: UrlScheme, text: string)
    requires ReadsSentMarkup(lib, FormatContent(text))
    ensures var content := NormalizeMessageBody(lib, scheme, FormatContent(text));
            && content.body == Returned(text)
            && content.formattedBody == if Returned(text) == "" then "" else FormatContent(text)
  {
    SentIsRendered(lib, scheme, text);
    SentIsParagraph(lib, scheme, text);
    SentIsTrimmed(text);
    ContentIsParagraph(text);
    hide *;
  }

  /** A text without carriage returns, blank lines or blank margins comes back unchanged. */
  lemma PlainTextEchoesUnchanged(lib: HtmlLibrary, scheme: UrlScheme, text: string)
    requires ReadsSentMarkup(lib, FormatContent(text))
    requires NoReturns(text) && NoBlankLine(text) && Trimmed(text)
    ensures NormalizeMessageBody(lib, scheme, FormatContent(text)).body == text
  {
    EchoRoundTrip(lib, scheme, text);
    UnixLinesUnchanged(text);
    NoBlankLineUnchanged(text);
    TrimSpaceOfTrimmed(text);
  }
}
