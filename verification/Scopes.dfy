/** Which scopes make a token one for Graph, read from left to right. */
module Scopes {
  import opened Text
  import opened Auth
  import opened TokenRotation

  lemma {:induction false} FieldsSkipBlanks(blank: string, s: string)
    requires AllSpace(blank)
    ensures Fields(blank + s) == Fields(s)
  {
    if blank == "" {
      assert blank + s == s;
    } else {
      assert (blank + s)[0] == blank[0] && (blank + s)[1..] == blank[1..] + s;
      FieldsSkipBlanks(blank[1..], s);
    }
  }

  lemma FieldsAfterWord(word: string, rest: string)
    requires word != "" && (forall i | 0 <= i < |word| :: !IsSpace(word[i]))
    requires rest == "" || IsSpace(rest[0])
    ensures Fields(word + rest) == [word] + Fields(rest)
  {
    var s := word + rest;
    assert forall i | 0 <= i < |word| :: s[i] == word[i];
    assert rest != "" ==> s[|word|] == rest[0];
    assert FieldEnd(s) == |word|;
    assert s[..|word|] == word && s[|word|..] == rest;
  }

  /** Trimming a word with more after it trims the end only. */
  lemma TrimmedFromWord(word: string, rest: string) returns (blank: string)
    requires word != "" && (forall i | 0 <= i < |word| :: !IsSpace(word[i]))
    requires rest == "" || IsSpace(rest[0])
    ensures AllSpace(blank) && TrimSpace(word + rest) == word + (blank + TrimSpace(rest))
    ensures TrimSpace(rest) == "" ==> blank == ""
    ensures TrimSpace(rest) != "" ==> blank != ""
  {
    var core := TrimSpace(rest);
    var left, right := TrimSpaceSplits(rest);
    TrimSpaceIsTrimmed(rest);
    hide TrimSpace;
    if core == "" {
      blank := "";
      assert AllSpace(rest);
      assert word + rest == "" + word + rest && word + ("" + "") == word;
      TrimSpaceUnique("", word, rest);
    } else {
      blank := left;
      FirstOf(left, core, right);
      WordKept(word, left, core, right);
    }
  }

  lemma FirstOf(left: string, core: string, right: string)
    requires core != "" && !IsSpace(core[0])
    requires left + core + right != "" && IsSpace((left + core + right)[0])
    ensures left != ""
  {
    assert left == "" ==> left + core + right == core + right;
  }

  lemma WordKept(word: string, left: string, core: string, right: string)
    requires word != "" && !IsSpace(word[0])
    requires AllSpace(right) && core != "" && !IsSpace(core[|core| - 1])
    ensures TrimSpace(word + (left + core + right)) == word + (left + core)
  {
    var kept := word + (left + core);
    assert kept[0] == word[0] && kept[|kept| - 1] == core[|core| - 1];
    TrimSpaceUnique("", kept, right);
    hide TrimSpace;
    assert word + (left + core + right) == "" + kept + right;
  }

  lemma LoweredFields(word: string, blank: string, core: string)
    requires word != "" && (forall i | 0 <= i < |word| :: !IsSpace(word[i]))
    requires AllSpace(blank) && (core == "" <==> blank == "")
    ensures Fields(ToLower(word + (blank + core))) == [ToLower(word)] + Fields(ToLower(core))
  {
    LowerAppend(word, blank + core);
    LowerAppend(blank, core);
    LowerKeepsSpaces(word);
    LowerKeepsSpaces(blank);
    hide ToLower, Fields;
    FieldsAfterWord(ToLower(word), ToLower(blank) + ToLower(core));
    FieldsSkipBlanks(ToLower(blank), ToLower(core));
  }

  lemma LowerAppend(a: string, b: string)
    ensures ToLower(a + b) == ToLower(a) + ToLower(b)
    ensures |ToLower(a)| == |a|
  {
  }

  /** The first scope decides against Graph when it has the MBI scope in it, for it when it has the Graph host in it or
      ends in the files permission, in any case; else the scopes after it decide, and none of them means no. */
  lemma ScopesReadExactly(word: string, rest: string)
    requires word != "" && (forall i | 0 <= i < |word| :: !IsSpace(word[i]))
    requires rest == "" || IsSpace(rest[0])
    ensures var low := ToLower(word);
            ShouldPersistGraphToken(word + rest) <==>
              && !Contains(low, "service::api.fl.spaces.skype.com::mbi_ssl")
              && (|| Contains(low, "graph.microsoft.com") || HasSuffix(low, "files.readwrite")
                  || (TrimSpace(rest) != "" && ShouldPersistGraphToken(rest)))
  {
    var blank := TrimmedFromWord(word, rest);
    var core := TrimSpace(rest);
    hide TrimSpace, ToLower, Contains, HasSuffix, Fields, ScopeVerdict;
    LoweredFields(word, blank, core);
    FirstOfMany(ToLower(word), Fields(ToLower(core)));
    if core == "" {
      assert Fields("") == [] by { NoFields(); }
      assert ToLower(core) == "" by { NothingLowered(); }
    }
  }

  lemma NoFields()
    ensures Fields("") == []
  {
  }

  lemma NothingLowered()
    ensures ToLower("") == ""
  {
  }

  lemma FirstOfMany(part: string, rest: seq<string>)
    ensures FirstVerdict([part] + rest) <==>
              && !Contains(part, "service::api.fl.spaces.skype.com::mbi_ssl")
              && (Contains(part, "graph.microsoft.com") || HasSuffix(part, "files.readwrite") || FirstVerdict(rest))
  {
    hide Contains, HasSuffix;
    assert ([part] + rest)[1..] == rest;
  }

  /** No scope at all means the token is for Graph. */
  lemma BlankScopeForGraph(blank: string)
    requires AllSpace(blank)
    ensures ShouldPersistGraphToken(blank)
  {
    BlankTrimsToNothing(blank);
  }

  /** The entries of the two scopes are told apart, and one without a token or without a target never matches. */
  lemma TargetsToldApart(secret: string, expiresAt: int)
    ensures var mbi, graph := Some(MsalEntry(secret, expiresAt, MBI_SCOPE)),
                              Some(MsalEntry(secret, expiresAt, GRAPH_SCOPE));
            && (Matches(mbi, MBI_MARKER) <==> secret != "") && !Matches(mbi, GRAPH_MARKER)
            && (Matches(graph, GRAPH_MARKER) <==> secret != "") && !Matches(graph, MBI_MARKER)
    ensures forall marker :: !Matches(None, marker) && !Matches(Some(MsalEntry(secret, expiresAt, "")), marker)
  {
    MBIScopeLowered();
    GraphScopeLowered();
    MBIVerdict();
    MBIHasNoG();
    GraphVerdict(ToLower(GRAPH_SCOPE));
    hide ToLower;
    var low := ToLower(GRAPH_SCOPE);
    assert low[8..27] == "graph.microsoft.com";
    assert OccursAt(low, GRAPH_MARKER, 8);
    forall i | 0 <= i <= |MBI_MARKER| - |GRAPH_MARKER|
      ensures !OccursAt(MBI_MARKER, GRAPH_MARKER, i)
    {
      assert MBI_MARKER[i..i + |GRAPH_MARKER|][0] != GRAPH_MARKER[0];
    }
  }

  lemma MBIHasNoG()
    ensures forall i | 0 <= i < |MBI_MARKER| :: MBI_MARKER[i] != 'g'
  {
  }
}
