/** The language the sanitizer writes, with its reader: a lexer and a parser that accept nothing else. */
module HtmlTree {
  import opened Text
  import opened Html

  /** A fragment with its siblings. Text is kept character by character, so that it does not matter how a parser
      splits it into text nodes. */
  datatype Tree =
    | Nil
    | Chr(c: char, next: Tree)
    | Br(next: Tree)
    | Tag(name: string, href: Option<string>, first: Tree, next: Tree)

  datatype Token =
    | CharToken(c: char)
    | BrToken
    | OpenToken(name: string, href: Option<string>)
    | CloseToken(name: string)

  /** The tags that come in pairs. */
  predicate IsPaired(name: string) {
    IsAllowed(name) && name != "br"
  }

  /** Only allowed tags, and a link only on an anchor. */
  predicate WellFormed(t: Tree) {
    match t
    case Nil => true
    case Chr(_, next) => WellFormed(next)
    case Br(next) => WellFormed(next)
    case Tag(name, href, first, next) =>
      IsPaired(name) && (href.Some? ==> name == "a") && WellFormed(first) && WellFormed(next)
  }

  predicate ValidToken(k: Token) {
    match k
    case CharToken(_) => true
    case BrToken => true
    case OpenToken(name, href) => IsPaired(name) && (href.Some? ==> name == "a")
    case CloseToken(name) => IsPaired(name)
  }

  // ----- printing

  function Tokens(t: Tree): seq<Token> {
    match t
    case Nil => []
    case Chr(c, next) => [CharToken(c)] + Tokens(next)
    case Br(next) => [BrToken] + Tokens(next)
    case Tag(name, href, first, next) =>
      [OpenToken(name, href)] + Tokens(first) + [CloseToken(name)] + Tokens(next)
  }

  function ShowToken(k: Token): string {
    match k
    case CharToken(c) => EscapeChar(c)
    case BrToken => "<br>"
    case OpenToken(name, href) => OpenTag(name, href)
    case CloseToken(name) => CloseTag(name)
  }

  function Show(ks: seq<Token>): string {
    if ks == [] then "" else ShowToken(ks[0]) + Show(ks[1..])
  }

  function Print(t: Tree): string {
    Show(Tokens(t))
  }

  lemma {:induction false} ShowAppend(a: seq<Token>, b: seq<Token>)
    ensures Show(a + b) == Show(a) + Show(b)
  {
    hide ShowToken;
    if a == [] {
      assert a + b == b;
    } else {
      assert (a + b)[1..] == a[1..] + b;
      ShowAppend(a[1..], b);
    }
  }

  // ----- reading characters

  /** One character of escaped text; the five escaped characters are not accepted bare. */
  function ReadChar(s: string): (r: Option<(char, string)>)
    ensures r.Some? ==> |r.value.1| < |s|
  {
    if s == "" then None
    else if s[0] == '&' then
      if "&amp;" <= s then Some(('&', s[5..]))
      else if "&lt;" <= s then Some(('<', s[4..]))
      else if "&gt;" <= s then Some(('>', s[4..]))
      else if "&#34;" <= s then Some(('"', s[5..]))
      else if "&#39;" <= s then Some(('\'', s[5..]))
      else None
    else if s[0] == '<' || s[0] == '>' || s[0] == '"' || s[0] == '\'' then None
    else Some((s[0], s[1..]))
  }

  lemma ReadEscapedChar(c: char, rest: string)
    ensures ReadChar(EscapeChar(c) + rest) == Some((c, rest))
  {
    var s := EscapeChar(c) + rest;
    assert s[|EscapeChar(c)|..] == rest;
    assert EscapeChar(c) <= s;
    if c == '<' {
      assert s[1] == 'l';
    } else if c == '>' {
      assert s[1] == 'g';
    } else if c == '"' {
      assert s[1] == '#' && s[3] == '4';
    } else if c == '\'' {
      assert s[1] == '#' && s[3] == '9';
    }
  }

  function Unescape(s: string): Option<string>
    decreases |s|
  {
    if s == "" then Some("")
    else
      match ReadChar(s)
      case None => None
      case Some((c, rest)) =>
        match Unescape(rest)
        case None => None
        case Some(more) => Some([c] + more)
  }

  lemma {:induction false} UnescapeEscape(s: string)
    ensures Unescape(Escape(s)) == Some(s)
  {
    if s != "" {
      ReadEscapedChar(s[0], Escape(s[1..]));
      UnescapeEscape(s[1..]);
      assert s == [s[0]] + s[1..];
    }
  }

  // ----- reading tags

  const HREF := " href=\""

  /** What stands between '<' and '>'. */
  function ReadTag(body: string): Option<Token> {
    if body == "br" then Some(BrToken)
    else if body != "" && body[0] == '/' then
      if IsPaired(body[1..]) then Some(CloseToken(body[1..])) else None
    else
      var i := IndexOf(body, ' ');
      var name, rest := body[..i], body[i..];
      if !IsPaired(name) then None
      else if rest == "" then Some(OpenToken(name, None))
      else if name == "a" && HREF <= rest && |rest| > |HREF| && rest[|rest| - 1] == '"' then
        match Unescape(rest[|HREF|..|rest| - 1])
        case None => None
        case Some(href) => Some(OpenToken(name, Some(href)))
      else None
  }

  predicate IsName(s: string) {
    s != "" && forall i | 0 <= i < |s| :: 'a' <= s[i] <= 'z'
  }

  lemma AllowedIsName(tag: string)
    requires IsAllowed(tag)
    ensures IsName(tag)
  {
  }

  predicate Lacks(s: string, c: char) {
    forall i | 0 <= i < |s| :: s[i] != c
  }

  lemma IndexOfSplit(a: string, c: char, b: string)
    requires Lacks(a, c)
    ensures IndexOf(a + [c] + b, c) == |a|
  {
    var s := a + [c] + b;
    assert s[|a|] == c;
    assert forall k | 0 <= k < |a| :: s[k] == a[k];
  }

  lemma IndexOfNone(s: string, c: char)
    requires Lacks(s, c)
    ensures IndexOf(s, c) == |s|
  {
  }

  lemma {:induction false} EscapeLacks(s: string)
    ensures Lacks(Escape(s), '>') && Lacks(Escape(s), '"')
  {
    if s != "" {
      EscapeLacks(s[1..]);
      assert Lacks(EscapeChar(s[0]), '>') && Lacks(EscapeChar(s[0]), '"');
    }
  }

  /** What a tag token puts between '<' and '>'. */
  function TagBody(k: Token): string
    requires !k.CharToken?
  {
    match k
    case BrToken => "br"
    case OpenToken(name, href) => name + if href.Some? then HREF + Escape(href.value) + "\"" else ""
    case CloseToken(name) => "/" + name
  }

  lemma ReadTagBody(k: Token)
    requires ValidToken(k) && !k.CharToken?
    ensures ReadTag(TagBody(k)) == Some(k)
    ensures Lacks(TagBody(k), '>')
    ensures ShowToken(k) == "<" + TagBody(k) + ">"
  {
    match k
    case BrToken =>
    case CloseToken(name) =>
      AllowedIsName(name);
      assert TagBody(k)[1..] == name;
    case OpenToken(name, href) =>
      AllowedIsName(name);
      if href.None? {
        assert TagBody(k) == name;
        IndexOfNone(name, ' ');
        assert name[..|name|] == name;
      } else {
        ReadAnchor(href.value);
      }
  }

  lemma ReadAnchor(href: string)
    ensures var body := TagBody(OpenToken("a", Some(href)));
            ReadTag(body) == Some(OpenToken("a", Some(href))) && Lacks(body, '>')
    ensures ShowToken(OpenToken("a", Some(href))) == "<" + TagBody(OpenToken("a", Some(href))) + ">"
  {
    EscapeLacks(href);
    UnescapeEscape(href);
    var escaped := Escape(href);
    hide Escape, Unescape;
    var rest := HREF + escaped + "\"";
    var body := "a" + rest;
    assert TagBody(OpenToken("a", Some(href))) == body;
    assert body == "a" + [' '] + ("href=\"" + escaped + "\"");
    IndexOfSplit("a", ' ', "href=\"" + escaped + "\"");
    assert body[..1] == "a" && body[1..] == rest;
    assert rest[|HREF|..|rest| - 1] == escaped;
    assert IsPaired("a");
    assert body[0] == 'a';
  }

  // ----- reading tokens

  function ReadToken(s: string): (r: Option<(Token, string)>)
    requires s != ""
    ensures r.Some? ==> |r.value.1| < |s|
  {
    if s[0] == '<' then
      var i := IndexOf(s, '>');
      if i == |s| then None
      else
        match ReadTag(s[1..i])
        case None => None
        case Some(k) => Some((k, s[i + 1..]))
    else
      match ReadChar(s)
      case None => None
      case Some((c, rest)) => Some((CharToken(c), rest))
  }

  lemma ReadShownToken(k: Token, rest: string)
    requires ValidToken(k)
    ensures ShowToken(k) != "" && ReadToken(ShowToken(k) + rest) == Some((k, rest))
  {
    if k.CharToken? {
      ReadEscapedChar(k.c, rest);
    } else {
      ReadTagBody(k);
      hide ReadTag, TagBody, ShowToken, IndexOf;
      TagSplits(TagBody(k), rest);
    }
  }

  lemma TagSplits(body: string, rest: string)
    requires Lacks(body, '>')
    ensures var s := "<" + body + ">" + rest;
            && s[0] == '<' && IndexOf(s, '>') == |body| + 1
            && s[1..|body| + 1] == body && s[|body| + 2..] == rest
  {
    hide IndexOf;
    var s := "<" + body + ">" + rest;
    assert s == ("<" + body) + ['>'] + rest;
    IndexOfSplit("<" + body, '>', rest);
  }

  function Lex(s: string): Option<seq<Token>>
    decreases |s|
  {
    if s == "" then Some([])
    else
      match ReadToken(s)
      case None => None
      case Some((k, rest)) =>
        match Lex(rest)
        case None => None
        case Some(more) => Some([k] + more)
  }

  predicate AllValid(ks: seq<Token>) {
    forall i | 0 <= i < |ks| :: ValidToken(ks[i])
  }

  lemma {:induction false} LexShow(ks: seq<Token>)
    requires AllValid(ks)
    ensures Lex(Show(ks)) == Some(ks)
  {
    hide ReadToken, ShowToken, ValidToken;
    if ks != [] {
      ReadShownToken(ks[0], Show(ks[1..]));
      LexShow(ks[1..]);
      assert ks == [ks[0]] + ks[1..];
    }
  }

  // ----- parsing

  /** Reads siblings up to the end or an unmatched closing tag. */
  function ParseSiblings(ks: seq<Token>): (r: Option<(Tree, seq<Token>)>)
    ensures r.Some? ==> |r.value.1| <= |ks|
    decreases |ks|
  {
    if ks == [] then Some((Nil, []))
    else
      match ks[0]
      case CloseToken(_) => Some((Nil, ks))
      case CharToken(c) =>
        (match ParseSiblings(ks[1..])
         case None => None
         case Some((next, rest)) => Some((Chr(c, next), rest)))
      case BrToken =>
        (match ParseSiblings(ks[1..])
         case None => None
         case Some((next, rest)) => Some((Br(next), rest)))
      case OpenToken(name, href) =>
        match ParseSiblings(ks[1..])
        case None => None
        case Some((first, rest)) =>
          if rest == [] || rest[0] != CloseToken(name) then None
          else
            match ParseSiblings(rest[1..])
            case None => None
            case Some((next, rest')) => Some((Tag(name, href, first, next), rest'))
  }

  /** A whole fragment: every tag allowed, every tag closed, nothing left over. */
  function Parse(s: string): Option<Tree> {
    match Lex(s)
    case None => None
    case Some(ks) =>
      match ParseSiblings(ks)
      case None => None
      case Some((t, rest)) => if rest == [] then Some(t) else None
  }

  lemma TokensBefore(t: Tree, rest: seq<Token>)
    ensures Tokens(t) + rest ==
      match t
      case Nil => rest
      case Chr(c, next) => [CharToken(c)] + (Tokens(next) + rest)
      case Br(next) => [BrToken] + (Tokens(next) + rest)
      case Tag(name, href, first, next) =>
        [OpenToken(name, href)] + (Tokens(first) + ([CloseToken(name)] + (Tokens(next) + rest)))
  {
  }

  lemma ParseNothing(rest: seq<Token>)
    requires rest == [] || rest[0].CloseToken?
    ensures ParseSiblings(rest) == Some((Nil, rest))
  {
  }

  /** A character or a line break, and the siblings after it. */
  lemma ParseSimple(k: Token, ks: seq<Token>)
    requires k.CharToken? || k.BrToken?
    requires ParseSiblings(ks).Some?
    ensures var (next, rest) := ParseSiblings(ks).value;
            ParseSiblings([k] + ks) == Some((if k.BrToken? then Br(next) else Chr(k.c, next), rest))
  {
    assert ([k] + ks)[1..] == ks;
  }

  /** An opening tag, siblings up to its closing tag, and the siblings after that. */
  lemma ParseOpened(name: string, href: Option<string>, inner: seq<Token>, first: Tree, outer: seq<Token>)
    requires ParseSiblings(inner) == Some((first, [CloseToken(name)] + outer))
    requires ParseSiblings(outer).Some?
    ensures var (next, rest) := ParseSiblings(outer).value;
            ParseSiblings([OpenToken(name, href)] + inner) == Some((Tag(name, href, first, next), rest))
  {
    var ks := [OpenToken(name, href)] + inner;
    assert ks[0] == OpenToken(name, href) && ks[1..] == inner;
    assert ([CloseToken(name)] + outer)[1..] == outer;
  }

  lemma {:induction false} ParseTokens(t: Tree, rest: seq<Token>)
    requires rest == [] || rest[0].CloseToken?
    ensures ParseSiblings(Tokens(t) + rest) == Some((t, rest))
    decreases t
  {
    TokensBefore(t, rest);
    hide ParseSiblings, Tokens;
    match t
    case Nil =>
      ParseNothing(rest);
    case Chr(c, next) =>
      ParseTokens(next, rest);
      ParseSimple(CharToken(c), Tokens(next) + rest);
    case Br(next) =>
      ParseTokens(next, rest);
      ParseSimple(BrToken, Tokens(next) + rest);
    case Tag(name, href, first, next) =>
      ParseTokens(first, [CloseToken(name)] + (Tokens(next) + rest));
      ParseTokens(next, rest);
      ParseOpened(name, href, Tokens(first) + ([CloseToken(name)] + (Tokens(next) + rest)), first, Tokens(next) + rest);
  }

  lemma {:induction false} TokensValid(t: Tree)
    requires WellFormed(t)
    ensures AllValid(Tokens(t))
  {
    hide IsPaired;
    match t
    case Nil =>
    case Chr(_, next) => TokensValid(next);
    case Br(next) => TokensValid(next);
    case Tag(name, href, first, next) =>
      TokensValid(first);
      TokensValid(next);
  }

  /** What is printed reads back as what was meant. */
  lemma ParsePrint(t: Tree)
    requires WellFormed(t)
    ensures Parse(Print(t)) == Some(t)
  {
    TokensValid(t);
    LexShow(Tokens(t));
    ParseTokens(t, []);
    assert Tokens(t) + [] == Tokens(t);
  }

  // ----- the reader accepts nothing but allowed markup

  lemma ReadTokenValid(s: string)
    requires s != ""
    ensures ReadToken(s).Some? ==> ValidToken(ReadToken(s).value.0)
  {
    hide Unescape;
  }

  lemma {:induction false} LexValid(s: string)
    ensures Lex(s).Some? ==> AllValid(Lex(s).value)
    decreases |s|
  {
    hide ReadToken, ValidToken;
    if s != "" {
      ReadTokenValid(s);
      if ReadToken(s).Some? {
        LexValid(ReadToken(s).value.1);
      }
    }
  }

  lemma {:induction false} ParsedWellFormed(ks: seq<Token>)
    requires AllValid(ks)
    ensures var r := ParseSiblings(ks); r.Some? ==> WellFormed(r.value.0) && AllValid(r.value.1)
    decreases |ks|
  {
    hide IsPaired;
    if ks != [] && !ks[0].CloseToken? {
      assert ValidToken(ks[0]);
      ParsedWellFormed(ks[1..]);
      var r := ParseSiblings(ks[1..]);
      if ks[0].OpenToken? && r.Some? && r.value.1 != [] && r.value.1[0] == CloseToken(ks[0].name) {
        ParsedWellFormed(r.value.1[1..]);
      }
    }
  }

  /** Text that parses is balanced and holds allowed tags only. */
  lemma ParseIsWellFormed(s: string)
    ensures Parse(s).Some? ==> WellFormed(Parse(s).value)
  {
    LexValid(s);
    if Lex(s).Some? {
      ParsedWellFormed(Lex(s).value);
    }
  }
}
