/** What the sanitizer lets through, with tags and schemes written out and counted on the document itself. */
module Allowlist {
  import opened Text
  import opened Html
  import opened HtmlTree
  import opened Sanitizer

  /** Elements of these names are dropped with all that is inside. */
  predicate Dropped(name: string) {
    var tag := ToLower(name);
    || tag == "script" || tag == "style" || tag == "iframe" || tag == "object"
    || tag == "embed" || tag == "meta" || tag == "link" || tag == "head"
  }

  /** Elements of these names, and line breaks, are written. */
  predicate Written(name: string) {
    var tag := ToLower(name);
    || tag == "a" || tag == "b" || tag == "blockquote" || tag == "code" || tag == "em" || tag == "i" || tag == "li"
    || tag == "ol" || tag == "p" || tag == "pre" || tag == "s" || tag == "strong" || tag == "u" || tag == "ul"
  }

  /** Around elements of these names the plain text breaks. */
  predicate Breaks(name: string) {
    var tag := ToLower(name);
    || tag == "blockquote" || tag == "div" || tag == "h1" || tag == "h2" || tag == "h3" || tag == "h4" || tag == "h5"
    || tag == "h6" || tag == "li" || tag == "ol" || tag == "p" || tag == "pre" || tag == "section" || tag == "ul"
  }

  /** The text nodes outside dropped elements, in document order; a line break has no text inside. */
  function VisibleText(d: Dom): string {
    match d
    case End => ""
    case TextNode(data, next) => data + VisibleText(next)
    case OtherNode(first, next) => VisibleText(first) + VisibleText(next)
    case Element(name, _, first, next) =>
      (if Dropped(name) || ToLower(name) == "br" then "" else VisibleText(first)) + VisibleText(next)
  }

  /** The lowered names of the written elements outside dropped ones, in document order. */
  function WrittenNames(d: Dom): seq<string> {
    match d
    case End => []
    case TextNode(_, next) => WrittenNames(next)
    case OtherNode(first, next) => WrittenNames(first) + WrittenNames(next)
    case Element(name, _, first, next) =>
      (if Dropped(name) then []
       else if ToLower(name) == "br" then ["br"]
       else if Written(name) then [ToLower(name)] + WrittenNames(first)
       else WrittenNames(first)) + WrittenNames(next)
  }

  /** The attributes of the anchors outside dropped elements, in document order. */
  function Anchors(d: Dom): seq<seq<Attribute>> {
    match d
    case End => []
    case TextNode(_, next) => Anchors(next)
    case OtherNode(first, next) => Anchors(first) + Anchors(next)
    case Element(name, attributes, first, next) =>
      (if Dropped(name) || ToLower(name) == "br" then []
       else if ToLower(name) == "a" then [attributes] + Anchors(first)
       else Anchors(first)) + Anchors(next)
  }

  function NamesIn(t: Tree): seq<string> {
    match t
    case Nil => []
    case Chr(_, next) => NamesIn(next)
    case Br(next) => ["br"] + NamesIn(next)
    case Tag(name, _, first, next) => [name] + NamesIn(first) + NamesIn(next)
  }

  /** The links of the anchors of a tree. */
  function LinksIn(t: Tree): seq<Option<string>> {
    match t
    case Nil => []
    case Chr(_, next) => LinksIn(next)
    case Br(next) => LinksIn(next)
    case Tag(name, href, first, next) => (if name == "a" then [href] else []) + LinksIn(first) + LinksIn(next)
  }

  predicate IsHref(a: Attribute) {
    ToLower(a.key) == "href"
  }

  predicate IsFirstHref(attributes: seq<Attribute>, i: nat)
    requires i < |attributes|
  {
    IsHref(attributes[i]) && forall j | 0 <= j < i :: !IsHref(attributes[j])
  }

  /** The value is a link to a web page, a mail address or a Matrix entity. */
  predicate LinksSafely(scheme: UrlScheme, v: string) {
    && v != "" && scheme(v).Some?
    && var s := ToLower(scheme(v).value);
       s == "http" || s == "https" || s == "mailto" || s == "matrix"
  }

  /** The link of an anchor is the trimmed value of its first href, if that links safely; else there is none. */
  predicate ShowsLink(scheme: UrlScheme, attributes: seq<Attribute>, href: Option<string>) {
    && (href.Some? ==> LinksSafely(scheme, href.value))
    && (forall i | 0 <= i < |attributes| && IsFirstHref(attributes, i) ::
          var v := TrimSpace(attributes[i].value);
          href == if LinksSafely(scheme, v) then Some(v) else None)
    && ((forall i | 0 <= i < |attributes| :: !IsHref(attributes[i])) ==> href == None)
  }

  ghost predicate ShowLinks(scheme: UrlScheme, anchors: seq<seq<Attribute>>, links: seq<Option<string>>) {
    |anchors| == |links| && forall i | 0 <= i < |links| :: ShowsLink(scheme, anchors[i], links[i])
  }

  // ----- the names

  lemma DroppedNames(name: string)
    ensures Dropped(name) <==> IsUnsafe(ToLower(name))
  {
    hide ToLower;
  }

  lemma BreakingNames(name: string)
    ensures Breaks(name) <==> IsBlock(ToLower(name))
  {
    hide ToLower;
  }

  lemma AllowedNames(name: string)
    ensures Written(name) || ToLower(name) == "br" <==> IsAllowed(ToLower(name))
  {
    hide ToLower;
  }

  // ----- the links

  lemma {:induction false} SafeHrefShows(scheme: UrlScheme, attributes: seq<Attribute>)
    ensures ShowsLink(scheme, attributes, SafeHref(scheme, attributes))
  {
    if attributes != [] {
      FoldIsHref(attributes[0]);
      hide TrimSpace, ToLower, EqualFold;
      if !IsHref(attributes[0]) {
        SafeHrefShows(scheme, attributes[1..]);
        assert forall i | 0 < i < |attributes| :: attributes[i] == attributes[1..][i - 1];
      }
    }
  }

  lemma FoldIsHref(a: Attribute)
    ensures EqualFold(a.key, "href") <==> IsHref(a)
  {
    assert ToLower("href") == "href";
  }

  // ----- the cleaned tree

  lemma {:induction false} AppendInOrder(a: Tree, b: Tree)
    ensures NamesIn(Append(a, b)) == NamesIn(a) + NamesIn(b)
    ensures LinksIn(Append(a, b)) == LinksIn(a) + LinksIn(b)
  {
    if !a.Nil? {
      AppendInOrder(a.next, b);
    }
  }

  lemma {:induction false} CharsHaveNoTags(s: string, next: Tree)
    ensures NamesIn(Chars(s, next)) == NamesIn(next) && LinksIn(Chars(s, next)) == LinksIn(next)
  {
    if s != "" {
      CharsHaveNoTags(s[1..], next);
    }
  }

  lemma {:induction false} CleanText(scheme: UrlScheme, d: Dom)
    ensures TextOf(Clean(scheme, d)) == VisibleText(d)
  {
    hide ToLower, HrefOf, IsUnsafe, IsAllowed, Dropped;
    match d
    case End =>
    case TextNode(data, next) =>
      CleanText(scheme, next);
      TextOfChars(data, Clean(scheme, next));
    case OtherNode(first, next) =>
      CleanText(scheme, first);
      CleanText(scheme, next);
      TextOfAppend(Clean(scheme, first), Clean(scheme, next));
    case Element(name, _, first, next) =>
      DroppedNames(name);
      CleanText(scheme, first);
      CleanText(scheme, next);
      TextOfAppend(Clean(scheme, first), Clean(scheme, next));
  }

  lemma {:induction false} CleanNames(scheme: UrlScheme, d: Dom)
    ensures NamesIn(Clean(scheme, d)) == WrittenNames(d)
  {
    hide ToLower, HrefOf, IsUnsafe, IsAllowed, Dropped, Written;
    match d
    case End =>
    case TextNode(data, next) =>
      CleanNames(scheme, next);
      CharsHaveNoTags(data, Clean(scheme, next));
    case OtherNode(first, next) =>
      CleanNames(scheme, first);
      CleanNames(scheme, next);
      AppendInOrder(Clean(scheme, first), Clean(scheme, next));
    case Element(name, _, first, next) =>
      DroppedNames(name);
      AllowedNames(name);
      CleanNames(scheme, first);
      CleanNames(scheme, next);
      AppendInOrder(Clean(scheme, first), Clean(scheme, next));
  }

  lemma JoinLinks(scheme: UrlScheme, a1: seq<seq<Attribute>>, l1: seq<Option<string>>, a2: seq<seq<Attribute>>,
                  l2: seq<Option<string>>)
    requires ShowLinks(scheme, a1, l1) && ShowLinks(scheme, a2, l2)
    ensures ShowLinks(scheme, a1 + a2, l1 + l2)
  {
    hide ShowsLink;
  }

  lemma {:induction false} CleanLinks(scheme: UrlScheme, d: Dom)
    ensures ShowLinks(scheme, Anchors(d), LinksIn(Clean(scheme, d)))
  {
    hide ToLower, SafeHref, IsUnsafe, IsAllowed, Dropped, ShowsLink;
    match d
    case End =>
    case TextNode(data, next) =>
      CleanLinks(scheme, next);
      CharsHaveNoTags(data, Clean(scheme, next));
    case OtherNode(first, next) =>
      CleanLinks(scheme, first);
      CleanLinks(scheme, next);
      AppendInOrder(Clean(scheme, first), Clean(scheme, next));
      JoinLinks(scheme, Anchors(first), LinksIn(Clean(scheme, first)), Anchors(next), LinksIn(Clean(scheme, next)));
    case Element(name, attributes, first, next) =>
      CleanLinks(scheme, first);
      CleanLinks(scheme, next);
      ElementLinks(scheme, name, attributes, first, next);
  }

  lemma ElementLinks(scheme: UrlScheme, name: string, attributes: seq<Attribute>, first: Dom, next: Dom)
    requires ShowLinks(scheme, Anchors(first), LinksIn(Clean(scheme, first)))
    requires ShowLinks(scheme, Anchors(next), LinksIn(Clean(scheme, next)))
    ensures var d := Element(name, attributes, first, next); ShowLinks(scheme, Anchors(d), LinksIn(Clean(scheme, d)))
  {
    DroppedNames(name);
    AllowedNames(name);
    SafeHrefShows(scheme, attributes);
    hide ToLower, SafeHref, IsUnsafe, IsAllowed, Dropped, ShowsLink, ShowLinks;
    var tag, href := ToLower(name), SafeHref(scheme, attributes);
    var kept, rest := Clean(scheme, first), Clean(scheme, next);
    NothingPlus(Anchors(next), LinksIn(rest));
    if IsUnsafe(tag) || tag == "br" {
    } else if !IsAllowed(tag) {
      AppendInOrder(kept, rest);
      JoinLinks(scheme, Anchors(first), LinksIn(kept), Anchors(next), LinksIn(rest));
    } else if tag == "a" {
      OneLink(scheme, attributes, href);
      JoinLinks(scheme, [attributes], [href], Anchors(first), LinksIn(kept));
      JoinLinks(scheme, [attributes] + Anchors(first), [href] + LinksIn(kept), Anchors(next), LinksIn(rest));
      assert LinksIn(Tag(tag, href, kept, rest)) == [href] + LinksIn(kept) + LinksIn(rest);
    } else {
      NothingPlus(Anchors(first), LinksIn(kept));
      JoinLinks(scheme, Anchors(first), LinksIn(kept), Anchors(next), LinksIn(rest));
      assert LinksIn(Tag(tag, None, kept, rest)) == [] + LinksIn(kept) + LinksIn(rest);
    }
  }

  lemma OneLink(scheme: UrlScheme, attributes: seq<Attribute>, href: Option<string>)
    requires ShowsLink(scheme, attributes, href)
    ensures ShowLinks(scheme, [attributes], [href])
  {
    hide ShowsLink;
  }

  lemma NothingPlus<A, B>(a: seq<A>, b: seq<B>)
    ensures [] + a == a && [] + b == b
  {
  }

  // ----- the renderers

  /** For every document, what the formatted renderer writes reads back as a tree with exactly the visible text, the
      written elements and for each anchor its safe link, all in document order. */
  lemma FormattedShowsExactly(scheme: UrlScheme, d: Dom)
    ensures Parse(Formatted(scheme, d)).Some?
    ensures var tree := Parse(Formatted(scheme, d)).value;
            && TextOf(tree) == VisibleText(d)
            && NamesIn(tree) == WrittenNames(d)
            && ShowLinks(scheme, Anchors(d), LinksIn(tree))
  {
    FormattedReadsBack(scheme, d);
    CleanText(scheme, d);
    CleanNames(scheme, d);
    CleanLinks(scheme, d);
    hide *;
  }

  /** For every document, the plain renderer writes exactly the visible text, with newlines put in. */
  lemma PlainShowsExactly(text: string, d: Dom)
    ensures NewlinesInserted(text + VisibleText(d), Plain(text, d))
  {
    var scheme: UrlScheme := _ => None;
    PlainShowsCleanText(scheme, text, d);
    CleanText(scheme, d);
    hide *;
  }

  /** The text with its line ended: a newline is put after it unless it is empty or ends in one. */
  function LineEnded(text: string): string {
    if text == "" then "" else if text[|text| - 1] == '\n' then text else text + "\n"
  }

  /** An element that breaks the text has its line ended before and after what is inside, a line break ends the line,
      and other elements show what is inside. */
  lemma PlainBreaks(text: string, d: Dom)
    requires d.Element? && !Dropped(d.tag)
    ensures PlainNode(text, d) ==
              if ToLower(d.tag) == "br" then LineEnded(text)
              else if Breaks(d.tag) then LineEnded(Plain(LineEnded(text), d.first))
              else Plain(text, d.first)
  {
    DroppedNames(d.tag);
    BreakingNames(d.tag);
    EndLine(text);
    EndLine(Plain(LineEnded(text), d.first));
    hide ToLower, IsUnsafe, IsBlock, Dropped, Breaks, Plain, LineEnded, WithNewline;
  }

  lemma EndLine(text: string)
    ensures LineEnded(text) == WithNewline(text)
  {
  }
}
