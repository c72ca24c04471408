/** The message sanitizer: a plain and a formatted renderer over a parsed HTML fragment. */
module Html {
  import opened Text

  datatype Attribute = Attribute(key: string, value: string)

  /** A node together with the siblings after it, linked as in golang.org/x/net/html. */
  datatype Dom =
    | End
    | TextNode(data: string, next: Dom)
    | Element(tag: string, attributes: seq<Attribute>, first: Dom, next: Dom)
    | OtherNode(first: Dom, next: Dom)

  const ALLOWED_TAGS: set<string> :=
    {"a", "b", "blockquote", "br", "code", "em", "i", "li", "ol", "p", "pre", "s", "strong", "u", "ul"}

  const BLOCK_TAGS: set<string> :=
    {"blockquote", "div", "h1", "h2", "h3", "h4", "h5", "h6", "li", "ol", "p", "pre", "section", "ul"}

  const UNSAFE_TAGS: set<string> :=
    {"script", "style", "iframe", "object", "embed", "meta", "link", "head"}

  predicate IsUnsafe(tag: string) { tag in UNSAFE_TAGS }

  predicate IsAllowed(tag: string) { tag in ALLOWED_TAGS }

  predicate IsBlock(tag: string) { tag in BLOCK_TAGS }

  /** url.Parse, as far as it matters here: None when it fails, else the scheme. */
  type UrlScheme = string -> Option<string>

  function SanitizeHref(scheme: UrlScheme, value: string): Option<string> {
    var v := TrimSpace(value);
    if v == "" || scheme(v).None? then None
    else if ToLower(scheme(v).value) in {"http", "https", "mailto", "matrix"} then Some(v)
    else None
  }

  /** extractSafeHref: the first href attribute decides. */
  function SafeHref(scheme: UrlScheme, attributes: seq<Attribute>): Option<string> {
    if attributes == [] then None
    else if EqualFold(attributes[0].key, "href") then SanitizeHref(scheme, attributes[0].value)
    else SafeHref(scheme, attributes[1..])
  }

  /** html.EscapeString */
  function EscapeChar(c: char): (s: string)
    ensures s != ""
  {
    match c
    case '&' => "&amp;"
    case '<' => "&lt;"
    case '>' => "&gt;"
    case '"' => "&#34;"
    case '\'' => "&#39;"
    case _ => [c]
  }

  function Escape(s: string): string {
    if s == "" then "" else EscapeChar(s[0]) + Escape(s[1..])
  }

  function OpenTag(tag: string, href: Option<string>): string {
    "<" + tag + (if href.Some? then " href=\"" + Escape(href.value) + "\"" else "") + ">"
  }

  function CloseTag(tag: string): string {
    "</" + tag + ">"
  }

  function HrefOf(scheme: UrlScheme, tag: string, attributes: seq<Attribute>): Option<string> {
    if tag == "a" then SafeHref(scheme, attributes) else None
  }

  // ----- the formatted renderer

  /** What renderFormattedNode writes for one node. */
  function FormattedNode(scheme: UrlScheme, node: Dom): string
    requires !node.End?
    decreases node, 0
  {
    match node
    case TextNode(data, _) => Escape(data)
    case OtherNode(first, _) => Formatted(scheme, first)
    case Element(name, attributes, first, _) =>
      var tag := ToLower(name);
      if IsUnsafe(tag) then ""
      else if tag == "br" then "<br>"
      else if !IsAllowed(tag) then Formatted(scheme, first)
      else OpenTag(tag, HrefOf(scheme, tag, attributes)) + Formatted(scheme, first) + CloseTag(tag)
  }

  /** What is written for a list of siblings. */
  function Formatted(scheme: UrlScheme, d: Dom): string
    decreases d, 1
  {
    if d.End? then "" else FormattedNode(scheme, d) + Formatted(scheme, d.next)
  }

  /** What renderFormattedNode reports: a tag was written. */
  predicate NodeWritesTag(node: Dom)
    requires !node.End?
    decreases node, 0
  {
    match node
    case TextNode(_, _) => false
    case OtherNode(first, _) => WritesTag(first)
    case Element(name, _, first, _) =>
      var tag := ToLower(name);
      !IsUnsafe(tag) && (tag == "br" || IsAllowed(tag) || WritesTag(first))
  }

  predicate WritesTag(d: Dom)
    decreases d, 1
  {
    !d.End? && (NodeWritesTag(d) || WritesTag(d.next))
  }

  // ----- the plain renderer

  function WithNewline(text: string): string {
    if text == "" || text[|text| - 1] == '\n' then text else text + "\n"
  }

  /** What renderPlainNode makes of the text so far. */
  function PlainNode(text: string, node: Dom): string
    requires !node.End?
    decreases node, 0
  {
    match node
    case TextNode(data, _) => text + data
    case OtherNode(first, _) => Plain(text, first)
    case Element(name, _, first, _) =>
      var tag := ToLower(name);
      if IsUnsafe(tag) then text
      else if tag == "br" then WithNewline(text)
      else if IsBlock(tag) then WithNewline(Plain(WithNewline(text), first))
      else Plain(text, first)
  }

  function Plain(text: string, d: Dom): string
    decreases d, 1
  {
    if d.End? then text else Plain(PlainNode(text, d), d.next)
  }

  // ----- the renderers as the program has them

  class Builder {
    var text: string

    constructor ()
      ensures text == ""
    {
      text := "";
    }

    method Write(s: string)
      modifies this
      ensures text == old(text) + s
    {
      text := text + s;
    }

    method AppendPlainNewline()
      modifies this
      ensures text == WithNewline(old(text))
    {
      if text == "" {
        return;
      }
      if text[|text| - 1] == '\n' {
        return;
      }
      Write("\n");
    }
  }

  method RenderPlainNode(builder: Builder, node: Dom)
    requires !node.End?
    modifies builder
    ensures builder.text == PlainNode(old(builder.text), node)
    decreases node, 0
  {
    hide ToLower;
    match node {
      case TextNode(data, _) =>
        builder.Write(data);
      case Element(name, _, first, _) =>
        var tag := ToLower(name);
        if IsUnsafe(tag) {
          return;
        }
        if tag == "br" {
          builder.AppendPlainNewline();
          return;
        }
        if IsBlock(tag) {
          builder.AppendPlainNewline();
        }
        RenderPlainChildren(builder, first);
        if IsBlock(tag) {
          builder.AppendPlainNewline();
        }
      case OtherNode(first, _) =>
        RenderPlainChildren(builder, first);
    }
  }

  /** The loop over a node's children. */
  method RenderPlainChildren(builder: Builder, first: Dom)
    modifies builder
    ensures builder.text == Plain(old(builder.text), first)
    decreases first, 1
  {
    hide ToLower;
    var child := first;
    while !child.End?
      invariant child == first || child < first
      invariant Plain(builder.text, child) == Plain(old(builder.text), first)
      decreases child
    {
      RenderPlainNode(builder, child);
      child := child.next;
    }
  }

  method RenderFormattedNode(scheme: UrlScheme, builder: Builder, node: Dom) returns (rendered: bool)
    requires !node.End?
    modifies builder
    ensures builder.text == old(builder.text) + FormattedNode(scheme, node)
    ensures rendered <==> NodeWritesTag(node)
    decreases node, 0
  {
    hide ToLower, SafeHref, Escape, OpenTag, CloseTag;
    match node {
      case TextNode(data, _) =>
        builder.Write(Escape(data));
        rendered := false;
      case Element(name, attributes, first, _) =>
        var tag := ToLower(name);
        if IsUnsafe(tag) {
          return false;
        }
        if tag == "br" {
          builder.Write("<br>");
          return true;
        }
        if !IsAllowed(tag) {
          rendered := RenderFormattedChildren(scheme, builder, first);
          return;
        }
        RenderAllowed(scheme, builder, tag, HrefOf(scheme, tag, attributes), first);
        rendered := true;
      case OtherNode(first, _) =>
        rendered := RenderFormattedChildren(scheme, builder, first);
    }
  }

  /** An allowed element: its tags around its children. */
  method RenderAllowed(scheme: UrlScheme, builder: Builder, tag: string, href: Option<string>, first: Dom)
    modifies builder
    ensures builder.text == old(builder.text) + (OpenTag(tag, href) + Formatted(scheme, first) + CloseTag(tag))
    decreases first, 2
  {
    hide *;
    builder.Write(OpenTag(tag, href));
    var _ := RenderFormattedChildren(scheme, builder, first);
    builder.Write(CloseTag(tag));
  }

  method RenderFormattedChildren(scheme: UrlScheme, builder: Builder, first: Dom) returns (rendered: bool)
    modifies builder
    ensures builder.text == old(builder.text) + Formatted(scheme, first)
    ensures rendered <==> WritesTag(first)
    decreases first, 1
  {
    hide FormattedNode, NodeWritesTag;
    rendered := false;
    var child := first;
    ghost var written := "";
    while !child.End?
      invariant child == first || child < first
      invariant builder.text == old(builder.text) + written
      invariant written + Formatted(scheme, child) == Formatted(scheme, first)
      invariant rendered || WritesTag(child) <==> WritesTag(first)
      decreases child
    {
      var here := RenderFormattedNode(scheme, builder, child);
      written := written + FormattedNode(scheme, child);
      rendered := rendered || here;
      child := child.next;
    }
  }
}
