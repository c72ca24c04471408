/** The few string operations the bridge leans on, over sequences of characters. */
module Text {

  datatype Option<+T> = None | Some(value: T)

  /** The characters that Go's unicode.IsSpace accepts. */
  predicate IsSpace(c: char) {
    || '\t' <= c <= '\r'
    || c == ' '
    || c == '\U{0085}' || c == '\U{00A0}' || c == '\U{1680}'
    || '\U{2000}' <= c <= '\U{200A}'
    || c == '\U{2028}' || c == '\U{2029}' || c == '\U{202F}' || c == '\U{205F}' || c == '\U{3000}'
  }

  predicate AllSpace(s: string) {
    forall i | 0 <= i < |s| :: IsSpace(s[i])
  }

  function TrimLeft(s: string): string {
    if s != "" && IsSpace(s[0]) then TrimLeft(s[1..]) else s
  }

  function TrimRight(s: string): string {
    if s != "" && IsSpace(s[|s| - 1]) then TrimRight(s[..|s| - 1]) else s
  }

  /** strings.TrimSpace */
  function TrimSpace(s: string): string {
    TrimRight(TrimLeft(s))
  }

  predicate Trimmed(s: string) {
    s == "" || (!IsSpace(s[0]) && !IsSpace(s[|s| - 1]))
  }

  lemma {:induction false} TrimLeftSplits(s: string)
    ensures var r := TrimLeft(s);
            && |r| <= |s| && r == s[|s| - |r|..] && AllSpace(s[..|s| - |r|])
            && (r == "" || !IsSpace(r[0]))
  {
    if s != "" && IsSpace(s[0]) {
      TrimLeftSplits(s[1..]);
      assert s[..|s| - |TrimLeft(s)|] == [s[0]] + s[1..][..|s| - 1 - |TrimLeft(s)|];
    }
  }

  lemma {:induction false} TrimRightSplits(s: string)
    ensures var r := TrimRight(s);
            && |r| <= |s| && r == s[..|r|] && AllSpace(s[|r|..])
            && (r == "" || !IsSpace(r[|r| - 1]))
  {
    if s != "" && IsSpace(s[|s| - 1]) {
      TrimRightSplits(s[..|s| - 1]);
      assert s[|TrimRight(s)|..] == s[..|s| - 1][|TrimRight(s)|..] + [s[|s| - 1]];
    }
  }

  lemma TrimSpaceIsTrimmed(s: string)
    ensures Trimmed(TrimSpace(s))
    ensures |TrimSpace(s)| <= |s|
  {
    TrimLeftSplits(s);
    TrimRightSplits(TrimLeft(s));
  }

  lemma TrimSpaceOfTrimmed(s: string)
    requires Trimmed(s)
    ensures TrimSpace(s) == s
  {
  }

  lemma TrimTwice(s: string)
    ensures TrimSpace(TrimSpace(s)) == TrimSpace(s)
  {
    TrimSpaceIsTrimmed(s);
    TrimSpaceOfTrimmed(TrimSpace(s));
  }

  /** TrimSpace takes whitespace off both ends and nothing else. */
  lemma TrimSpaceSplits(s: string) returns (left: string, right: string)
    ensures s == left + TrimSpace(s) + right
    ensures AllSpace(left) && AllSpace(right)
  {
    var l := TrimLeft(s);
    TrimLeftSplits(s);
    TrimRightSplits(l);
    left := s[..|s| - |l|];
    right := l[|TrimSpace(s)|..];
  }

  /** Only one trimmed text fits between two blank margins, so the split of `TrimSpaceSplits` is unique
      whenever anything is left. */
  lemma TrimSpaceUnique(left: string, core: string, right: string)
    requires AllSpace(left) && AllSpace(right) && Trimmed(core)
    ensures TrimSpace(left + core + right) == core
  {
    if core == "" {
      assert AllSpace(left + core + right);
      BlankTrimsToNothing(left + core + right);
    } else {
      TrimLeftSkips(left, core + right);
      assert left + core + right == left + (core + right);
      TrimRightSkips(core, right);
    }
  }

  lemma BlankTrimsToNothing(s: string)
    requires AllSpace(s)
    ensures TrimSpace(s) == ""
  {
    TrimLeftSplits(s);
  }

  lemma {:induction false} TrimLeftSkips(left: string, rest: string)
    requires AllSpace(left)
    requires rest == "" || !IsSpace(rest[0])
    ensures TrimLeft(left + rest) == rest
  {
    if left == "" {
      assert left + rest == rest;
    } else {
      assert (left + rest)[1..] == left[1..] + rest;
      assert (left + rest)[0] == left[0];
      TrimLeftSkips(left[1..], rest);
    }
  }

  lemma {:induction false} TrimRightSkips(core: string, right: string)
    requires AllSpace(right)
    requires core == "" || !IsSpace(core[|core| - 1])
    ensures TrimRight(core + right) == core
  {
    if right == "" {
      assert core + right == core;
    } else {
      var n := |core + right|;
      assert (core + right)[..n - 1] == core + right[..|right| - 1];
      assert (core + right)[n - 1] == right[|right| - 1];
      TrimRightSkips(core, right[..|right| - 1]);
    }
  }

  /** The characters that are trimmed are the 25 with the Unicode property White_Space. */
  lemma TrimmedCharacters(c: char)
    ensures TrimSpace([c]) == "" <==>
              c in {'\U{0009}', '\U{000A}', '\U{000B}', '\U{000C}', '\U{000D}', '\U{0020}', '\U{0085}', '\U{00A0}',
                    '\U{1680}', '\U{2000}', '\U{2001}', '\U{2002}', '\U{2003}', '\U{2004}', '\U{2005}', '\U{2006}',
                    '\U{2007}', '\U{2008}', '\U{2009}', '\U{200A}', '\U{2028}', '\U{2029}', '\U{202F}', '\U{205F}',
                    '\U{3000}'}
  {
    assert TrimLeft([c]) == if IsSpace(c) then "" else [c] by {
      assert [c][1..] == "";
    }
  }

  function LowerChar(c: char): char {
    if 'A' <= c <= 'Z' then c - 'A' + 'a' else c
  }

  /** strings.ToLower on ASCII letters; other characters are kept. */
  function ToLower(s: string): (r: string)
    ensures |r| == |s|
    ensures forall i | 0 <= i < |s| :: r[i] == LowerChar(s[i])
  {
    seq(|s|, i requires 0 <= i < |s| => LowerChar(s[i]))
  }

  /** A capital letter goes to the letter 32 places on, everything else stays. */
  lemma LoweredCharacters(c: char)
    ensures ToLower([c]) == [if 'A' <= c <= 'Z' then c + '\U{0020}' else c]
  {
  }

  /** strings.EqualFold, with the same letters folded as in ToLower. */
  predicate EqualFold(a: string, b: string) {
    ToLower(a) == ToLower(b)
  }

  predicate OccursAt(s: string, sub: string, i: int) {
    0 <= i <= |s| - |sub| && s[i..i + |sub|] == sub
  }

  /** strings.Contains */
  predicate Contains(s: string, sub: string) {
    exists i | 0 <= i <= |s| :: OccursAt(s, sub, i)
  }

  predicate HasPrefix(s: string, prefix: string) {
    prefix <= s
  }

  predicate HasSuffix(s: string, suffix: string) {
    |suffix| <= |s| && s[|s| - |suffix|..] == suffix
  }

  lemma OccursBetween(s: string, sub: string)
    ensures Contains(s, sub) <==> exists before, after :: s == before + sub + after
  {
    if i :| 0 <= i <= |s| && OccursAt(s, sub, i) {
      assert s == s[..i] + sub + s[i + |sub|..];
    }
    forall before, after | s == before + sub + after
      ensures Contains(s, sub)
    {
      assert OccursAt(s, sub, |before|);
    }
  }

  lemma OccursAtEnd(s: string, sub: string)
    ensures HasPrefix(s, sub) <==> exists after :: s == sub + after
    ensures HasSuffix(s, sub) <==> exists before :: s == before + sub
  {
    if HasPrefix(s, sub) {
      assert s == sub + s[|sub|..];
    }
    if HasSuffix(s, sub) {
      assert s == s[..|s| - |sub|] + sub;
    }
  }

  /** The position of the first `c`, or |s| when there is none. */
  function IndexOf(s: string, c: char): (i: nat)
    ensures i <= |s|
    ensures i < |s| ==> s[i] == c
    ensures forall k | 0 <= k < i :: s[k] != c
  {
    if s == "" || s[0] == c then 0 else 1 + IndexOf(s[1..], c)
  }
}
