/** The two-way table between emoji and Teams reaction names. */
module Emoji {
  import opened Text

  /** Emoji in fully-qualified form to reaction names; neither has blanks around it or is empty. */
  predicate WellFormed(table: map<string, string>, fullyQualify: string -> string) {
    && (forall e | e in table :: fullyQualify(e) == e && TrimSpace(e) != "")
    && (forall e | e in table :: table[e] != "" && TrimSpace(table[e]) == table[e])
  }

  /** Any inverse that maps exactly the names of the table, each to an emoji with that name. */
  predicate IsInverse(table: map<string, string>, inverse: map<string, string>) {
    && (forall e | e in table :: table[e] in inverse)
    && (forall k | k in inverse :: inverse[k] in table && table[inverse[k]] == k)
  }

  /** Walking the table in any order and keeping the first emoji of each name. */
  method InvertTable(table: map<string, string>) returns (inverse: map<string, string>)
    ensures IsInverse(table, inverse)
  {
    inverse := map[];
    var left := table.Keys;
    while left != {}
      invariant left <= table.Keys
      invariant forall e | e in table && e !in left :: table[e] in inverse
      invariant forall k | k in inverse :: inverse[k] in table && inverse[k] !in left && table[inverse[k]] == k
      decreases |left|
    {
      var e :| e in left;
      left := left - {e};
      if table[e] !in inverse {
        inverse := inverse[table[e] := e];
      }
    }
  }

  function MapEmojiToEmotionKey(table: map<string, string>, fullyQualify: string -> string, emoji: string)
    : Option<string>
  {
    if TrimSpace(emoji) == "" then None
    else
      var normalized := fullyQualify(emoji);
      if normalized in table then Some(table[normalized]) else None
  }

  function MapEmotionKeyToEmoji(inverse: map<string, string>, emotionKey: string): Option<string> {
    var key := TrimSpace(emotionKey);
    if key != "" && key in inverse then Some(inverse[key]) else None
  }

  /** A name that maps to an emoji gets back from it, whatever order the inverse was built in; and exactly the names
      of the table map. */
  lemma KeySurvives(table: map<string, string>, inverse: map<string, string>, fullyQualify: string -> string,
                    name: string)
    requires WellFormed(table, fullyQualify) && IsInverse(table, inverse)
    ensures MapEmotionKeyToEmoji(inverse, name).Some? <==> exists e | e in table :: table[e] == TrimSpace(name)
    ensures MapEmotionKeyToEmoji(inverse, name).Some? ==>
      MapEmojiToEmotionKey(table, fullyQualify, MapEmotionKeyToEmoji(inverse, name).value) == Some(TrimSpace(name))
  {
    hide TrimSpace;
  }

  /** An emoji maps exactly when its qualified form is in the table, and then to the name there. */
  lemma EmojiMapsIff(table: map<string, string>, fullyQualify: string -> string, emoji: string, name: string)
    requires WellFormed(table, fullyQualify)
    ensures MapEmojiToEmotionKey(table, fullyQualify, emoji) == Some(name) <==>
              TrimSpace(emoji) != "" && exists e | e in table :: fullyQualify(emoji) == e && table[e] == name
  {
    hide TrimSpace;
  }

  /** An emoji survives the round trip in every order of building the inverse if and only if no other emoji of the
      table shares its name. */
  lemma EmojiSurvivesIff(table: map<string, string>, fullyQualify: string -> string, emoji: string)
    requires WellFormed(table, fullyQualify) && emoji in table
    ensures (forall inverse | IsInverse(table, inverse) :: MapEmotionKeyToEmoji(inverse, table[emoji]) == Some(emoji))
       <==> (forall e | e in table && table[e] == table[emoji] :: e == emoji)
  {
    hide TrimSpace;
    forall e | e in table && table[e] == table[emoji] && e != emoji
      ensures exists inverse :: IsInverse(table, inverse) && MapEmotionKeyToEmoji(inverse, table[emoji]) != Some(emoji)
    {
      var inverse := InverseWith(table, e);
    }
  }

  /** Some inverse picks the given emoji: one whose walk meets it first. */
  lemma InverseWith(table: map<string, string>, emoji: string) returns (inverse: map<string, string>)
    requires emoji in table
    ensures IsInverse(table, inverse) && inverse[table[emoji]] == emoji
  {
    var keys := set e | e in table :: table[e];
    inverse := map k | k in keys :: if k == table[emoji] then emoji else Pick(table, k);
    forall k | k in inverse ensures inverse[k] in table && table[inverse[k]] == k {
      if k != table[emoji] {
        assert exists e :: e in table && table[e] == k;
      }
    }
  }

  ghost function Pick(table: map<string, string>, k: string): (e: string)
    requires exists e :: e in table && table[e] == k
    ensures e in table && table[e] == k
  {
    var e :| e in table && table[e] == k;
    e
  }
}
