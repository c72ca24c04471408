/** What the sanitizer means: the renderers against the tree that is left after cleaning. */
module Sanitizer {
  import opened Text
  import opened Html
  import opened HtmlTree

  function Chars(s: string, next: Tree): Tree {
    if s == "" then next else Chr(s[0], Chars(s[1..], next))
  }

  function Append(a: Tree, b: Tree): Tree {
    match a
    case Nil => b
    case Chr(c, next) => Chr(c, Append(next, b))
    case Br(next) => Br(Append(next, b))
    case Tag(name, href, first, next) => Tag(name, href, first, Append(next, b))
  }

  /** Unsafe elements go with everything inside, other disallowed elements are replaced by their children,
      and of all attributes only a checked link on an anchor is kept. */
  function Clean(scheme: UrlScheme, d: Dom): Tree {
    match d
    case End => Nil
    case TextNode(data, next) => Chars(data, Clean(scheme, next))
    case OtherNode(first, next) => Append(Clean(scheme, first), Clean(scheme, next))
    case Element(name, attributes, first, next) =>
      var tag := ToLower(name);
      if IsUnsafe(tag) then Clean(scheme, next)
      else if tag == "br" then Br(Clean(scheme, next))
      else if !IsAllowed(tag) then Append(Clean(scheme, first), Clean(scheme, next))
      else Tag(tag, HrefOf(scheme, tag, attributes), Clean(scheme, first), Clean(scheme, next))
  }

  // ----- the formatted output is the cleaned tree

  lemma {:induction false} PrintChars(s: string, next: Tree)
    ensures Print(Chars(s, next)) == Escape(s) + Print(next)
  {
    hide EscapeChar, Print;
    if s != "" {
      PrintChars(s[1..], next);
      PrintChr(s[0], Chars(s[1..], next));
    }
  }

  lemma PrintChr(c: char, next: Tree)
    ensures Print(Chr(c, next)) == EscapeChar(c) + Print(next)
  {
    hide EscapeChar;
    assert ([CharToken(c)] + Tokens(next))[1..] == Tokens(next);
  }

  lemma PrintBr(next: Tree)
    ensures Print(Br(next)) == "<br>" + Print(next)
  {
    assert ([BrToken] + Tokens(next))[1..] == Tokens(next);
  }

  lemma PrintTag(name: string, href: Option<string>, first: Tree, next: Tree)
    ensures Print(Tag(name, href, first, next)) == OpenTag(name, href) + Print(first) + CloseTag(name) + Print(next)
  {
    var open, close := [OpenToken(name, href)], [CloseToken(name)];
    ShowSingle(OpenToken(name, href));
    ShowSingle(CloseToken(name));
    hide OpenTag, CloseTag, Show;
    ShowAppend(open + Tokens(first) + close, Tokens(next));
    ShowAppend(open + Tokens(first), close);
    ShowAppend(open, Tokens(first));
  }

  lemma ShowSingle(k: Token)
    ensures Show([k]) == ShowToken(k)
  {
    hide ShowToken;
    assert [k][1..] == [];
    assert ShowToken(k) + "" == ShowToken(k);
  }

  lemma {:induction false} PrintAppend(a: Tree, b: Tree)
    ensures Print(Append(a, b)) == Print(a) + Print(b)
  {
    hide Print, EscapeChar, OpenTag, CloseTag;
    match a
    case Nil =>
      PrintNil();
    case Chr(c, next) =>
      PrintAppend(next, b);
      PrintChr(c, next);
      PrintChr(c, Append(next, b));
    case Br(next) =>
      PrintAppend(next, b);
      PrintBr(next);
      PrintBr(Append(next, b));
    case Tag(name, href, first, next) =>
      PrintAppend(next, b);
      PrintTag(name, href, first, next);
      PrintTag(name, href, first, Append(next, b));
  }

  lemma PrintNil()
    ensures Print(Nil) == ""
  {
  }

  lemma {:induction false} FormattedIsPrinted(scheme: UrlScheme, d: Dom)
    ensures Formatted(scheme, d) == Print(Clean(scheme, d))
  {
    hide Print, ToLower, OpenTag, CloseTag, HrefOf, Escape;
    match d
    case End =>
      PrintNil();
    case TextNode(data, next) =>
      FormattedIsPrinted(scheme, next);
      PrintChars(data, Clean(scheme, next));
    case OtherNode(first, next) =>
      FormattedIsPrinted(scheme, first);
      FormattedIsPrinted(scheme, next);
      PrintAppend(Clean(scheme, first), Clean(scheme, next));
    case Element(name, attributes, first, next) =>
      FormattedIsPrinted(scheme, first);
      FormattedIsPrinted(scheme, next);
      var tag, kept, rest := ToLower(name), Clean(scheme, first), Clean(scheme, next);
      PrintAppend(kept, rest);
      PrintBr(rest);
      PrintTag(tag, HrefOf(scheme, tag, attributes), kept, rest);
  }

  lemma {:induction false} CharsWellFormed(s: string, next: Tree)
    requires WellFormed(next)
    ensures WellFormed(Chars(s, next))
  {
    if s != "" {
      CharsWellFormed(s[1..], next);
    }
  }

  lemma {:induction false} AppendWellFormed(a: Tree, b: Tree)
    requires WellFormed(a) && WellFormed(b)
    ensures WellFormed(Append(a, b))
  {
    hide IsPaired;
    if !a.Nil? {
      AppendWellFormed(a.next, b);
    }
  }

  lemma {:induction false} CleanWellFormed(scheme: UrlScheme, d: Dom)
    ensures WellFormed(Clean(scheme, d))
  {
    hide ToLower, SafeHref, IsAllowed, IsUnsafe;
    match d
    case End =>
    case TextNode(data, next) =>
      CleanWellFormed(scheme, next);
      CharsWellFormed(data, Clean(scheme, next));
    case OtherNode(first, next) =>
      CleanWellFormed(scheme, first);
      CleanWellFormed(scheme, next);
      AppendWellFormed(Clean(scheme, first), Clean(scheme, next));
    case Element(name, attributes, first, next) =>
      CleanWellFormed(scheme, first);
      CleanWellFormed(scheme, next);
      AppendWellFormed(Clean(scheme, first), Clean(scheme, next));
  }

  /** For every DOM, reading back what the formatted renderer wrote gives the cleaned tree; so the output is always
      balanced and holds allowed tags only. */
  lemma FormattedReadsBack(scheme: UrlScheme, d: Dom)
    ensures Parse(Formatted(scheme, d)) == Some(Clean(scheme, d))
    ensures WellFormed(Clean(scheme, d))
  {
    FormattedIsPrinted(scheme, d);
    CleanWellFormed(scheme, d);
    ParsePrint(Clean(scheme, d));
  }

  // ----- the flag

  predicate HasTag(t: Tree) {
    match t
    case Nil => false
    case Chr(_, next) => HasTag(next)
    case Br(_) => true
    case Tag(_, _, _, _) => true
  }

  lemma {:induction false} AppendHasTag(a: Tree, b: Tree)
    ensures HasTag(Append(a, b)) <==> HasTag(a) || HasTag(b)
  {
    if !a.Nil? {
      AppendHasTag(a.next, b);
    }
  }

  lemma {:induction false} CharsHasTag(s: string, next: Tree)
    ensures HasTag(Chars(s, next)) <==> HasTag(next)
  {
    if s != "" {
      CharsHasTag(s[1..], next);
    }
  }

  /** The renderer's flag is set exactly when the output, read back, holds a tag. */
  lemma {:induction false} FlagIffTagWritten(scheme: UrlScheme, d: Dom)
    ensures WritesTag(d) <==> HasTag(Clean(scheme, d))
  {
    hide ToLower, SafeHref, IsAllowed, IsUnsafe;
    match d
    case End =>
    case TextNode(data, next) =>
      FlagIffTagWritten(scheme, next);
      CharsHasTag(data, Clean(scheme, next));
    case OtherNode(first, next) =>
      FlagIffTagWritten(scheme, first);
      FlagIffTagWritten(scheme, next);
      AppendHasTag(Clean(scheme, first), Clean(scheme, next));
    case Element(name, attributes, first, next) =>
      FlagIffTagWritten(scheme, first);
      FlagIffTagWritten(scheme, next);
      AppendHasTag(Clean(scheme, first), Clean(scheme, next));
  }

  // ----- links

  /** Every link survives the check unchanged. */
  predicate SafeLinks(scheme: UrlScheme, t: Tree) {
    match t
    case Nil => true
    case Chr(_, next) => SafeLinks(scheme, next)
    case Br(next) => SafeLinks(scheme, next)
    case Tag(_, href, first, next) =>
      (href.Some? ==> SanitizeHref(scheme, href.value) == href) && SafeLinks(scheme, first) && SafeLinks(scheme, next)
  }

  lemma {:induction false} SafeHrefIsSafe(scheme: UrlScheme, attributes: seq<Attribute>)
    ensures var href := SafeHref(scheme, attributes);
            href.Some? ==> SanitizeHref(scheme, href.value) == href
  {
    hide EqualFold;
    if attributes != [] {
      SafeHrefIsSafe(scheme, attributes[1..]);
      SanitizeTwice(scheme, attributes[0].value);
    }
  }

  lemma SanitizeTwice(scheme: UrlScheme, value: string)
    ensures var href := SanitizeHref(scheme, value);
            href.Some? ==> SanitizeHref(scheme, href.value) == href
  {
    TrimSpaceIsTrimmed(value);
    TrimSpaceOfTrimmed(TrimSpace(value));
  }

  lemma {:induction false} AppendSafeLinks(scheme: UrlScheme, a: Tree, b: Tree)
    requires SafeLinks(scheme, a) && SafeLinks(scheme, b)
    ensures SafeLinks(scheme, Append(a, b))
  {
    hide SanitizeHref;
    if !a.Nil? {
      AppendSafeLinks(scheme, a.next, b);
    }
  }

  lemma {:induction false} CharsSafeLinks(scheme: UrlScheme, s: string, next: Tree)
    requires SafeLinks(scheme, next)
    ensures SafeLinks(scheme, Chars(s, next))
  {
    if s != "" {
      CharsSafeLinks(scheme, s[1..], next);
    }
  }

  lemma {:induction false} CleanSafeLinks(scheme: UrlScheme, d: Dom)
    ensures SafeLinks(scheme, Clean(scheme, d))
  {
    hide ToLower, SafeHref, SanitizeHref, IsAllowed, IsUnsafe;
    match d
    case End =>
    case TextNode(data, next) =>
      CleanSafeLinks(scheme, next);
      CharsSafeLinks(scheme, data, Clean(scheme, next));
    case OtherNode(first, next) =>
      CleanSafeLinks(scheme, first);
      CleanSafeLinks(scheme, next);
      AppendSafeLinks(scheme, Clean(scheme, first), Clean(scheme, next));
    case Element(name, attributes, first, next) =>
      CleanSafeLinks(scheme, first);
      CleanSafeLinks(scheme, next);
      AppendSafeLinks(scheme, Clean(scheme, first), Clean(scheme, next));
      SafeHrefIsSafe(scheme, attributes);
  }

  // ----- cleaning again changes nothing

  /** The tree a DOM spells out when it is nothing but text, line breaks and elements with at most a link,
      however its text is split into nodes. */
  function Spelled(d: Dom): Option<Tree> {
    match d
    case End => Some(Nil)
    case TextNode(data, next) =>
      var rest := Spelled(next);
      if rest.None? then None else Some(Chars(data, rest.value))
    case OtherNode(_, _) => None
    case Element(name, attributes, first, next) =>
      var (inside, rest) := (Spelled(first), Spelled(next));
      if inside.None? || rest.None? then None
      else if name == "br" then Some(Br(rest.value))
      else if attributes == [] then Some(Tag(name, None, inside.value, rest.value))
      else if |attributes| == 1 && attributes[0].key == "href"
        then Some(Tag(name, Some(attributes[0].value), inside.value, rest.value))
      else None
  }

  lemma LowerName(name: string)
    requires IsAllowed(name)
    ensures ToLower(name) == name && !IsUnsafe(name)
  {
    AllowedIsName(name);
  }

  lemma {:induction false} CharsInjective(s: string, a: Tree, t: Tree)
    requires Chars(s, a) == t
    requires WellFormed(t)
    ensures WellFormed(a)
  {
    if s != "" {
      CharsInjective(s[1..], a, t.next);
    }
  }

  /** A DOM that spells out an allowed tree with checked links is cleaned to that very tree. */
  lemma {:induction false} CleanOfSpelled(scheme: UrlScheme, d: Dom, t: Tree)
    requires Spelled(d) == Some(t) && WellFormed(t) && SafeLinks(scheme, t)
    ensures Clean(scheme, d) == t
  {
    hide ToLower, SanitizeHref, IsUnsafe, IsAllowed;
    match d
    case End =>
    case TextNode(data, next) =>
      CharsInjective(data, Spelled(next).value, t);
      CharsKeepLinks(scheme, data, Spelled(next).value);
      CleanOfSpelled(scheme, next, Spelled(next).value);
    case Element(name, attributes, first, next) =>
      CleanOfSpelled(scheme, next, t.next);
      if name == "br" {
        BrIsAllowed();
        LowerName("br");
      } else {
        CleanOfSpelled(scheme, first, t.first);
        LowerName(name);
        if attributes != [] {
          FoldHref(attributes[0].key);
        } else {
          assert SafeHref(scheme, attributes) == None;
        }
      }
  }

  lemma BrIsAllowed()
    ensures IsAllowed("br")
  {
  }

  lemma FoldHref(key: string)
    ensures key == "href" ==> EqualFold(key, "href")
  {
  }

  lemma {:induction false} CharsKeepLinks(scheme: UrlScheme, s: string, a: Tree)
    requires SafeLinks(scheme, Chars(s, a))
    ensures SafeLinks(scheme, a)
  {
    if s != "" {
      CharsKeepLinks(scheme, s[1..], a);
    }
  }

  /** Sanitizing what was sanitized, parsed in any way that keeps its markup, changes nothing. */
  lemma SanitizeIsIdempotent(scheme: UrlScheme, d: Dom, again: Dom)
    requires Spelled(again) == Parse(Formatted(scheme, d))
    ensures Formatted(scheme, again) == Formatted(scheme, d)
  {
    FormattedReadsBack(scheme, d);
    CleanSafeLinks(scheme, d);
    CleanOfSpelled(scheme, again, Clean(scheme, d));
    FormattedIsPrinted(scheme, d);
    FormattedIsPrinted(scheme, again);
  }

  /** One such DOM: every character a text node of its own. */
  function Spell(t: Tree): Dom {
    match t
    case Nil => End
    case Chr(c, next) => TextNode([c], Spell(next))
    case Br(next) => Element("br", [], End, Spell(next))
    case Tag(name, href, first, next) =>
      Element(name, if href.Some? then [Attribute("href", href.value)] else [], Spell(first), Spell(next))
  }

  lemma {:induction false} SpellSpells(t: Tree)
    requires WellFormed(t)
    ensures Spelled(Spell(t)) == Some(t)
  {
    hide IsAllowed;
    match t
    case Nil =>
    case Chr(c, next) =>
      SpellSpells(next);
      assert [c][1..] == "";
      assert Chars([c], next) == Chr(c, Chars("", next));
    case Br(next) => SpellSpells(next);
    case Tag(name, href, first, next) =>
      SpellSpells(first);
      SpellSpells(next);
  }

  /** Every output is spelled out by some DOM, and sanitizing that DOM gives the same output again. */
  lemma SanitizedIsFixed(scheme: UrlScheme, d: Dom)
    ensures Formatted(scheme, Spell(Clean(scheme, d))) == Formatted(scheme, d)
  {
    FormattedReadsBack(scheme, d);
    SpellSpells(Clean(scheme, d));
    SanitizeIsIdempotent(scheme, d, Spell(Clean(scheme, d)));
  }

  // ----- the plain renderer shows the same text

  /** The text of a tree, without its markup. */
  function TextOf(t: Tree): string {
    match t
    case Nil => ""
    case Chr(c, next) => [c] + TextOf(next)
    case Br(next) => TextOf(next)
    case Tag(_, _, first, next) => TextOf(first) + TextOf(next)
  }

  /** `t` is `s` with newlines put in, and nothing taken out. */
  predicate NewlinesInserted(s: string, t: string)
    decreases |t|
  {
    if t == "" then s == ""
    else
      || (s != "" && s[0] == t[0] && NewlinesInserted(s[1..], t[1..]))
      || (t[0] == '\n' && NewlinesInserted(s, t[1..]))
  }

  lemma {:induction false} NothingInserted(s: string)
    ensures NewlinesInserted(s, s)
  {
    if s != "" {
      NothingInserted(s[1..]);
    }
  }

  lemma {:induction false} InsertedThenMore(s: string, t: string, more: string)
    requires NewlinesInserted(s, t)
    ensures NewlinesInserted(s + more, t + more)
    decreases |t|
  {
    if t == "" {
      NothingInserted(more);
      assert s + more == more && t + more == more;
    } else {
      assert (t + more)[1..] == t[1..] + more;
      if s != "" && s[0] == t[0] && NewlinesInserted(s[1..], t[1..]) {
        InsertedThenMore(s[1..], t[1..], more);
        assert (s + more)[1..] == s[1..] + more;
      } else {
        InsertedThenMore(s, t[1..], more);
      }
    }
  }

  lemma {:induction false} InsertedTwice(s: string, t: string, u: string)
    requires NewlinesInserted(s, t) && NewlinesInserted(t, u)
    ensures NewlinesInserted(s, u)
    decreases |u|
  {
    if u != "" {
      if t != "" && t[0] == u[0] && NewlinesInserted(t[1..], u[1..]) {
        if s != "" && s[0] == t[0] && NewlinesInserted(s[1..], t[1..]) {
          InsertedTwice(s[1..], t[1..], u[1..]);
        } else {
          InsertedTwice(s, t[1..], u[1..]);
        }
      } else {
        InsertedTwice(s, t, u[1..]);
      }
    }
  }

  lemma {:induction false} NewlineAtEnd(s: string)
    ensures NewlinesInserted(s, s + "\n")
  {
    if s == "" {
      assert "\n"[1..] == "";
    } else {
      NewlineAtEnd(s[1..]);
      assert (s + "\n")[1..] == s[1..] + "\n";
    }
  }

  lemma NewlineAddsNoText(text: string)
    ensures NewlinesInserted(text, WithNewline(text))
  {
    NothingInserted(text);
    NewlineAtEnd(text);
  }

  /** Rendering one part after another. */
  lemma InsertedInTurn(text: string, first: string, middle: string, second: string, result: string)
    requires NewlinesInserted(text + first, middle) && NewlinesInserted(middle + second, result)
    ensures NewlinesInserted(text + (first + second), result)
  {
    InsertedThenMore(text + first, middle, second);
    assert text + (first + second) == (text + first) + second;
    InsertedTwice((text + first) + second, middle + second, result);
  }

  lemma {:induction false} TextOfAppend(a: Tree, b: Tree)
    ensures TextOf(Append(a, b)) == TextOf(a) + TextOf(b)
  {
    if !a.Nil? {
      TextOfAppend(a.next, b);
    }
  }

  lemma {:induction false} TextOfChars(s: string, next: Tree)
    ensures TextOf(Chars(s, next)) == s + TextOf(next)
  {
    if s != "" {
      TextOfChars(s[1..], next);
      assert s == [s[0]] + s[1..];
    }
  }

  /** The plain renderer appends the text of the cleaned tree with newlines put in between, and loses nothing of it:
      line breaks that belong to the text stay where they are. */
  lemma {:induction false} PlainShowsCleanText(scheme: UrlScheme, text: string, d: Dom)
    ensures NewlinesInserted(text + TextOf(Clean(scheme, d)), Plain(text, d))
    decreases d
  {
    hide ToLower, HrefOf, IsAllowed, IsUnsafe, IsBlock, WithNewline, NewlinesInserted;
    match d
    case End =>
      NothingInserted(text);
      assert text + "" == text;
    case TextNode(data, next) =>
      PlainShowsCleanText(scheme, text + data, next);
      TextOfChars(data, Clean(scheme, next));
      assert text + (data + TextOf(Clean(scheme, next))) == text + data + TextOf(Clean(scheme, next));
    case OtherNode(first, next) =>
      PlainShowsCleanText(scheme, text, first);
      PlainShowsCleanText(scheme, Plain(text, first), next);
      TextOfAppend(Clean(scheme, first), Clean(scheme, next));
      assert Plain(text, d) == Plain(Plain(text, first), next) by {
        assert PlainNode(text, d) == Plain(text, first);
      }
      InsertedInTurn(text, TextOf(Clean(scheme, first)), Plain(text, first), TextOf(Clean(scheme, next)),
                     Plain(text, d));
    case Element(name, attributes, first, next) =>
      ElementShowsCleanText(scheme, text, d);
      PlainShowsCleanText(scheme, PlainNode(text, d), next);
      TextOfAppend(Clean(scheme, first), Clean(scheme, next));
      InsertedInTurn(text, ShownText(scheme, d), PlainNode(text, d), TextOf(Clean(scheme, next)), Plain(text, d));
      assert "" + TextOf(Clean(scheme, next)) == TextOf(Clean(scheme, next));
  }

  /** The text an element shows. */
  function ShownText(scheme: UrlScheme, d: Dom): string
    requires d.Element?
  {
    var tag := ToLower(d.tag);
    if IsUnsafe(tag) || tag == "br" then "" else TextOf(Clean(scheme, d.first))
  }

  lemma ElementShowsCleanText(scheme: UrlScheme, text: string, d: Dom)
    requires d.Element?
    ensures NewlinesInserted(text + ShownText(scheme, d), PlainNode(text, d))
    decreases d, 0
  {
    hide ToLower, HrefOf, IsAllowed, IsUnsafe, IsBlock, WithNewline, NewlinesInserted;
    var shown, broken := TextOf(Clean(scheme, d.first)), WithNewline(text);
    assert text + "" == text;
    NothingInserted(text);
    NewlineAddsNoText(text);
    PlainShowsCleanText(scheme, text, d.first);
    PlainShowsCleanText(scheme, broken, d.first);
    InsertedThenMore(text, broken, shown);
    InsertedTwice(text + shown, broken + shown, Plain(broken, d.first));
    NewlineAddsNoText(Plain(broken, d.first));
    InsertedTwice(text + shown, Plain(broken, d.first), WithNewline(Plain(broken, d.first)));
  }
}
