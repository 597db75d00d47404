/**
 * The leaf-payload cleanup `cleanJSON`: one fixed replacer, built from nine
 * (pattern, replacement) pairs, applied twice.
 */
module Cleanup {
  import opened Wrappers
  import opened Replacer

  /** The nine argument pairs, in argument order. Pairs 6 and 7 repeat pairs 2 and 3. */
  const CleanTable: seq<Pair> := [
    Pair("\\\\", ""),
    Pair("\"#{", "{"),
    Pair("\"{", "{"),
    Pair("}\"", "}"),
    Pair("\"#[", "["),
    Pair("]\"", "]"),
    Pair("\"{", "{"),
    Pair("}\"", "}"),
    Pair("\\\"", "\"")
  ]

  /** The same table with the two repeated pairs left out. */
  const DedupTable: seq<Pair> := [
    Pair("\\\\", ""),
    Pair("\"#{", "{"),
    Pair("\"{", "{"),
    Pair("}\"", "}"),
    Pair("\"#[", "["),
    Pair("]\"", "]"),
    Pair("\\\"", "\"")
  ]

  /** The characters that every pattern of the table contains. */
  predicate Special(c: char) {
    c == '\\' || c == '"'
  }

  lemma CleanTableShortening()
    ensures Shortening(CleanTable) && NonEmptyPatterns(CleanTable)
  {
  }

  /**
   * `cleanJSON(input)`: the replacer applied to its own output once more.
   * Every replacement is shorter than its pattern, so the payload never grows.
   */
  function CleanJson(input: string): (r: string)
    ensures |r| <= |input|
  {
    CleanTableShortening();
    Replace(CleanTable, Replace(CleanTable, input))
  }

  /** Cleanup leaves a payload unchanged exactly when none of the patterns occurs in it. */
  lemma CleanJsonUnchangedIff(s: string)
    ensures CleanJson(s) == s <==> !Occurs(CleanTable, s)
  {
    CleanTableShortening();
    var once := Replace(CleanTable, s);
    ReplaceFixedPointIff(CleanTable, s);
    ReplaceNeverLonger(CleanTable, s);
    ReplaceNeverLonger(CleanTable, once);
    if !Occurs(CleanTable, s) {
      assert once == s;
    }
  }

  /** Every pattern holds a backslash or a double quote within its first two characters. */
  lemma PatternsAreSpecial()
    ensures forall k :: 0 <= k < |CleanTable| ==>
      |CleanTable[k].pattern| >= 2 &&
      (Special(CleanTable[k].pattern[0]) || Special(CleanTable[k].pattern[1]))
  {
  }

  /** A payload without any backslash or double quote comes out of cleanup unchanged. */
  lemma CleanJsonPlainText(s: string)
    requires forall i :: 0 <= i < |s| ==> !Special(s[i])
    ensures CleanJson(s) == s
  {
    PatternsAreSpecial();
    assert !Occurs(CleanTable, s);
    CleanJsonUnchangedIff(s);
  }

  /** The repeated pairs never fire: one pass with or without them gives the same text. */
  lemma ReplaceIgnoresRepeatedPairs(s: string)
    ensures NonEmptyPatterns(CleanTable) && NonEmptyPatterns(DedupTable)
    ensures Replace(CleanTable, s) == Replace(DedupTable, s)
  {
    CleanTableShortening();
    var without7 := CleanTable[..7] + CleanTable[8..];
    assert CleanTable == CleanTable[..7] + [CleanTable[7]] + CleanTable[8..];
    assert CleanTable[..7][3].pattern == CleanTable[7].pattern;
    ReplaceIgnoresShadowed(CleanTable[..7], CleanTable[7], CleanTable[8..], s);
    assert without7 == CleanTable[..6] + [CleanTable[6]] + CleanTable[8..];
    assert CleanTable[..6][2].pattern == CleanTable[6].pattern;
    ReplaceIgnoresShadowed(CleanTable[..6], CleanTable[6], CleanTable[8..], s);
    assert CleanTable[..6] + CleanTable[8..] == DedupTable;
  }

  /** Cleanup with the seven distinct pairs produces the same output as with all nine. */
  lemma CleanJsonIgnoresRepeatedPairs(s: string)
    ensures NonEmptyPatterns(DedupTable)
    ensures CleanJson(s) == Replace(DedupTable, Replace(DedupTable, s))
  {
    ReplaceIgnoresRepeatedPairs(s);
    ReplaceIgnoresRepeatedPairs(Replace(CleanTable, s));
  }

  /** Of the seven distinct patterns, none is a prefix of another. */
  lemma DedupTablePrefixFree()
    ensures forall j, k :: 0 <= j < |DedupTable| && 0 <= k < |DedupTable| && j != k ==>
      !(DedupTable[j].pattern <= DedupTable[k].pattern)
  {
    forall j, k | 0 <= j < |DedupTable| && 0 <= k < |DedupTable| && j != k
      ensures !(DedupTable[j].pattern <= DedupTable[k].pattern)
    {
      NotPrefixWhenDiffers(DedupTable[j].pattern, DedupTable[k].pattern);
    }
  }

  /**
   * At any position at most one distinct pattern starts, so apart from the
   * repeats the argument order of the pairs never decides a match.
   */
  lemma AtMostOnePatternStarts(s: string, j: nat, k: nat)
    requires j < |DedupTable| && k < |DedupTable|
    requires DedupTable[j].pattern <= s && DedupTable[k].pattern <= s
    ensures j == k
  {
    DedupTablePrefixFree();
    var p, q := DedupTable[j].pattern, DedupTable[k].pattern;
    if |p| <= |q| {
      assert p == q[..|p|];
    }
  }

  /** `p` and `s` differ within the first three characters, or `p` is longer. */
  predicate DiffersEarly(p: string, s: string) {
    |p| > |s| ||
    (|p| > 0 && |s| > 0 && p[0] != s[0]) ||
    (|p| > 1 && |s| > 1 && p[1] != s[1]) ||
    (|p| > 2 && |s| > 2 && p[2] != s[2])
  }

  lemma NotPrefixWhenDiffers(p: string, s: string)
    requires DiffersEarly(p, s)
    ensures !(p <= s)
  {
  }

  /** The pair with index `k` wins at the start of `s` when every earlier pattern differs early from `s`. */
  lemma CleanWinner(s: string, k: nat)
    requires k < |CleanTable| && CleanTable[k].pattern <= s
    requires forall j :: 0 <= j < k ==> DiffersEarly(CleanTable[j].pattern, s)
    ensures FirstMatch(CleanTable, s) == Some(CleanTable[k])
  {
    forall j | 0 <= j < k ensures !(CleanTable[j].pattern <= s) {
      NotPrefixWhenDiffers(CleanTable[j].pattern, s);
    }
    FirstMatchIs(CleanTable, s, k);
  }

  /** Whether a pattern of the table can start at the head of `s`, judged by its first two characters. */
  predicate OpensPattern(s: string) {
    |s| >= 2 &&
    ((s[0] == '\\' && (s[1] == '\\' || s[1] == '"')) ||
     (s[0] == '"' && (s[1] == '#' || s[1] == '{')) ||
     ((s[0] == '}' || s[0] == ']') && s[1] == '"'))
  }

  lemma PatternsOpen()
    ensures forall j :: 0 <= j < |CleanTable| ==> OpensPattern(CleanTable[j].pattern)
  {
  }

  lemma NotPrefixUnlessOpens(p: string, s: string)
    requires OpensPattern(p) && !OpensPattern(s)
    ensures !(p <= s)
  {
    if |s| >= 2 && |p| <= |s| {
      assert p[0] != s[0] || p[1] != s[1];
    }
  }

  /** No pair wins at the start of `s` when no pattern opens there. */
  lemma CleanNoWinner(s: string)
    requires !OpensPattern(s)
    ensures FirstMatch(CleanTable, s) == None
  {
    PatternsOpen();
    forall j | 0 <= j < |CleanTable| ensures !(CleanTable[j].pattern <= s) {
      NotPrefixUnlessOpens(CleanTable[j].pattern, s);
    }
    FirstMatchNone(CleanTable, s);
  }

  /** One scan step that copies the first character of `s`. */
  lemma CopyStep(s: string)
    requires s != [] && !OpensPattern(s)
    ensures NonEmptyPatterns(CleanTable)
    ensures Replace(CleanTable, s) == [s[0]] + Replace(CleanTable, s[1..])
  {
    CleanTableShortening();
    CleanNoWinner(s);
  }

  /** One scan step in which the pair with index `k` fires at the start of `s`. */
  lemma MatchStep(s: string, k: nat)
    requires k < |CleanTable| && CleanTable[k].pattern <= s
    requires forall j :: 0 <= j < k ==> DiffersEarly(CleanTable[j].pattern, s)
    ensures NonEmptyPatterns(CleanTable)
    ensures Replace(CleanTable, s) ==
      CleanTable[k].replacement + Replace(CleanTable, s[|CleanTable[k].pattern|..])
  {
    CleanTableShortening();
    CleanWinner(s, k);
  }

  /**
   * One scan step in which the pair with index `k` fires on its own pattern
   * followed by anything: every pair but the two repeated ones does.
   */
  lemma FireStep(k: nat, rest: string)
    requires k < |CleanTable| && k != 6 && k != 7
    ensures NonEmptyPatterns(CleanTable)
    ensures Replace(CleanTable, CleanTable[k].pattern + rest) ==
      CleanTable[k].replacement + Replace(CleanTable, rest)
  {
    var s := CleanTable[k].pattern + rest;
    assert s[|CleanTable[k].pattern|..] == rest;
    forall j | 0 <= j < k ensures DiffersEarly(CleanTable[j].pattern, s) {
      assert s[0] == CleanTable[k].pattern[0];
      assert |CleanTable[k].pattern| > 1 ==> s[1] == CleanTable[k].pattern[1];
      assert |CleanTable[k].pattern| > 2 ==> s[2] == CleanTable[k].pattern[2];
    }
    MatchStep(s, k);
  }

  /** A character at which no pattern starts: neither a backslash, a double quote nor a closing bracket. */
  predicate Ordinary(c: char) {
    !Special(c) && c != '}' && c != ']'
  }

  /** Text made only of ordinary characters. */
  predicate Inert(t: string) {
    forall i :: 0 <= i < |t| ==> Ordinary(t[i])
  }

  lemma CopyOrdinary(c: char, rest: string)
    requires Ordinary(c)
    ensures NonEmptyPatterns(CleanTable)
    ensures Replace(CleanTable, [c] + rest) == [c] + Replace(CleanTable, rest)
  {
    CopyHead(c, rest);
  }

  /** Inert text passes through one scan unchanged, whatever follows it. */
  lemma {:induction false} CopyInert(t: string, rest: string)
    requires Inert(t)
    ensures NonEmptyPatterns(CleanTable)
    ensures Replace(CleanTable, t + rest) == t + Replace(CleanTable, rest)
    decreases |t|
  {
    CleanTableShortening();
    SplitHead(t, rest);
    if t != [] {
      CopyOrdinary(t[0], t[1..] + rest);
      CopyInert(t[1..], rest);
    }
  }

  lemma SplitHead(t: string, rest: string)
    ensures t == [] ==> t + rest == rest
    ensures t != [] ==> t + rest == [t[0]] + (t[1..] + rest) && t == [t[0]] + t[1..]
    ensures Inert(t) && t != [] ==> Inert(t[1..])
  {
    if t != [] {
      assert t + rest == [t[0]] + (t[1..] + rest);
      assert t == [t[0]] + t[1..];
    }
  }

  /** One scan step that copies `c` when no pattern opens at it. */
  lemma CopyHead(c: char, rest: string)
    requires !OpensPattern([c] + rest)
    ensures NonEmptyPatterns(CleanTable)
    ensures Replace(CleanTable, [c] + rest) == [c] + Replace(CleanTable, rest)
  {
    var s := [c] + rest;
    assert s[1..] == rest;
    CopyStep(s);
  }

  /** A double quote is copied unless an opening `#` or brace follows it. */
  lemma CopyQuote(rest: string)
    requires rest == [] || (rest[0] != '#' && rest[0] != '{')
    ensures NonEmptyPatterns(CleanTable)
    ensures Replace(CleanTable, ['"'] + rest) == ['"'] + Replace(CleanTable, rest)
  {
    assert rest != [] ==> (['"'] + rest)[1] == rest[0];
    CopyHead('"', rest);
  }

  /** A closing bracket is copied unless a double quote follows it. */
  lemma CopyClosing(c: char, rest: string)
    requires c == '}' || c == ']'
    requires rest == [] || rest[0] != '"'
    ensures NonEmptyPatterns(CleanTable)
    ensures Replace(CleanTable, [c] + rest) == [c] + Replace(CleanTable, rest)
  {
    assert rest != [] ==> ([c] + rest)[1] == rest[0];
    CopyHead(c, rest);
  }

  /** Inert text is a fixed point of one pass. */
  lemma InertPass(t: string)
    requires Inert(t)
    ensures NonEmptyPatterns(CleanTable)
    ensures Replace(CleanTable, t) == t
  {
    CopyInert(t, []);
    assert t + [] == t;
  }

  /** `"{` followed by `t`. */
  function QuotedBrace(t: string): string {
    "\"" + ("{" + t)
  }

  /** `""{` followed by `t`. */
  function DoublyQuotedBrace(t: string): string {
    "\"" + QuotedBrace(t)
  }

  /** `"\"{` followed by `t`. */
  function EscapedQuotedBrace(t: string): string {
    "\"" + ("\\\"" + ("{" + t))
  }

  /** The first pass on `"\"{` turns the escaped quote into a quote. */
  lemma EscapedQuotedBracePass(t: string)
    requires Inert(t)
    ensures NonEmptyPatterns(CleanTable)
    ensures Replace(CleanTable, EscapedQuotedBrace(t)) == DoublyQuotedBrace(t)
  {
    InertPass(t);
    CopyOrdinary('{', t);
    FireStep(8, "{" + t);
    CopyQuote("\\\"" + ("{" + t));
  }

  /** A pass on `""{` keeps the first quote and drops the second. */
  lemma DoublyQuotedBracePass(t: string)
    requires Inert(t)
    ensures NonEmptyPatterns(CleanTable)
    ensures Replace(CleanTable, DoublyQuotedBrace(t)) == QuotedBrace(t)
  {
    QuotedBracePass(t);
    CopyQuote(QuotedBrace(t));
  }

  /** A pass on `"{` drops the quote. */
  lemma QuotedBracePass(t: string)
    requires Inert(t)
    ensures NonEmptyPatterns(CleanTable)
    ensures Replace(CleanTable, QuotedBrace(t)) == "{" + t
  {
    InertPass(t);
    FireStep(2, t);
    QuoteThenBrace(t);
  }

  /**
   * A third pass is not always a no-op: the two passes take `"\"{` followed by
   * inert text `t` to `"{` and `t`, and cleaning that once more gives `{` and `t`.
   */
  lemma CleanJsonNotIdempotent(t: string)
    requires Inert(t)
    ensures CleanJson(EscapedQuotedBrace(t)) == QuotedBrace(t)
    ensures CleanJson(QuotedBrace(t)) == "{" + t
    ensures CleanJson(CleanJson(EscapedQuotedBrace(t))) != CleanJson(EscapedQuotedBrace(t))
  {
    EscapedQuotedBracePass(t);
    DoublyQuotedBracePass(t);
    QuotedBracePass(t);
    assert Inert("{" + t) by {
      forall i | 0 <= i < |"{" + t| ensures Ordinary(("{" + t)[i]) {
        if i > 0 {
          assert ("{" + t)[i] == t[i - 1];
        }
      }
    }
    InertPass("{" + t);
  }

  /** The short literals the passes below meet, spelled as the table spells them. */
  lemma Spellings()
    ensures CleanTable[3].pattern + [] == "}\""
    ensures CleanTable[8].pattern + [] == "\\\""
    ensures ['}'] + "\\\"" == "}\\\""
    ensures "}" + [] == "}"
  {
  }

  lemma QuoteThenBrace(t: string)
    ensures QuotedBrace(t) == CleanTable[2].pattern + t
  {
    assert CleanTable[2].pattern == "\"" + "{";
  }

  /** An object `{"key":value}` with one member. */
  function Object(key: string, value: string): string {
    "{" + ("\"" + (key + ("\"" + (":" + (value + "}")))))
  }

  /** The same object as a string inside a string: `"#{\"key\":value}"`. */
  function WrappedObject(key: string, value: string): string {
    "\"#{" + ("\\\"" + (key + ("\\\"" + (":" + (value + "}\"")))))
  }

  /** The wrapped object with its own quotes escaped once more: `\"#{\"key\":value}\"`. */
  function EscapedWrappedObject(key: string, value: string): string {
    "\\\"" + ("#{" + ("\\\"" + (key + ("\\\"" + (":" + (value + "}\\\""))))))
  }

  /** A key of inert text that does not start with `#` or an opening brace. */
  predicate PlainKey(key: string) {
    Inert(key) && (key == [] || (key[0] != '#' && key[0] != '{'))
  }

  lemma WrappedObjectPassOne(key: string, value: string)
    requires Inert(key) && Inert(value)
    ensures NonEmptyPatterns(CleanTable)
    ensures Replace(CleanTable, WrappedObject(key, value)) == Object(key, value)
  {
    FireStep(3, []);
    Spellings();
    CopyInert(value, "}\"");
    CopyOrdinary(':', value + "}\"");
    FireStep(8, ":" + (value + "}\""));
    CopyInert(key, "\\\"" + (":" + (value + "}\"")));
    FireStep(8, key + ("\\\"" + (":" + (value + "}\""))));
    FireStep(1, "\\\"" + (key + ("\\\"" + (":" + (value + "}\"")))));
    Spellings();
  }

  lemma ObjectPass(key: string, value: string)
    requires PlainKey(key) && Inert(value)
    ensures NonEmptyPatterns(CleanTable)
    ensures Replace(CleanTable, Object(key, value)) == Object(key, value)
  {
    CopyClosing('}', []);
    CopyInert(value, "}");
    CopyOrdinary(':', value + "}");
    CopyQuote(":" + (value + "}"));
    CopyInert(key, "\"" + (":" + (value + "}")));
    CopyQuote(key + ("\"" + (":" + (value + "}"))));
    CopyOrdinary('{', "\"" + (key + ("\"" + (":" + (value + "}")))));
    Spellings();
  }

  /** The object `"#{\"key\":value}"` that a string holds cleans up to `{"key":value}`. */
  lemma CleanJsonWrappedObject(key: string, value: string)
    requires PlainKey(key) && Inert(value)
    ensures Replace(CleanTable, WrappedObject(key, value)) == Object(key, value)
    ensures CleanJson(WrappedObject(key, value)) == Object(key, value)
  {
    // first pass: `"#{` to `{`, `\"` to `"` twice, `}"` to `}`; second pass: nothing left
    WrappedObjectPassOne(key, value);
    ObjectPass(key, value);
  }

  /** The wrapped object with plain quotes: `"#{"key":value}"`. */
  function QuotedWrappedObject(key: string, value: string): string {
    "\"" + ("#{" + ("\"" + (key + ("\"" + (":" + (value + "}\""))))))
  }

  /** A closing brace before an escaped quote stays, and the escaped quote becomes a quote. */
  lemma EscapedClosePass()
    ensures NonEmptyPatterns(CleanTable)
    ensures Replace(CleanTable, "}\\\"") == "}\""
  {
    FireStep(8, []);
    CopyClosing('}', "\\\"");
    Spellings();
  }

  /** The member `\"key\":value}\"` of the escaped wrapped object, in the first pass. */
  lemma EscapedMemberPass(key: string, value: string)
    requires Inert(key) && Inert(value)
    ensures NonEmptyPatterns(CleanTable)
    ensures Replace(CleanTable, "\\\"" + (key + ("\\\"" + (":" + (value + "}\\\""))))) ==
      "\"" + (key + ("\"" + (":" + (value + "}\""))))
  {
    EscapedClosePass();
    CopyInert(value, "}\\\"");
    CopyOrdinary(':', value + "}\\\"");
    FireStep(8, ":" + (value + "}\\\""));
    CopyInert(key, "\\\"" + (":" + (value + "}\\\"")));
    FireStep(8, key + ("\\\"" + (":" + (value + "}\\\""))));
  }

  /** An escaped quote before `#{` becomes a quote, and `#{` stays. */
  lemma EscapedHashBracePass(rest: string)
    ensures NonEmptyPatterns(CleanTable)
    ensures Replace(CleanTable, "\\\"" + ("#{" + rest)) == "\"" + ("#{" + Replace(CleanTable, rest))
  {
    assert Inert("#{");
    CopyInert("#{", rest);
    FireStep(8, "#{" + rest);
  }

  lemma EscapedWrappedObjectPassOne(key: string, value: string)
    requires Inert(key) && Inert(value)
    ensures NonEmptyPatterns(CleanTable)
    ensures Replace(CleanTable, EscapedWrappedObject(key, value)) == QuotedWrappedObject(key, value)
  {
    EscapedMemberPass(key, value);
    EscapedHashBracePass("\\\"" + (key + ("\\\"" + (":" + (value + "}\\\"")))));
  }

  /** The member `"key":value}"` of the wrapped object, in the second pass. */
  lemma QuotedMemberPass(key: string, value: string)
    requires PlainKey(key) && Inert(value)
    ensures NonEmptyPatterns(CleanTable)
    ensures Replace(CleanTable, "\"" + (key + ("\"" + (":" + (value + "}\""))))) ==
      "\"" + (key + ("\"" + (":" + (value + "}"))))
  {
    FireStep(3, []);
    Spellings();
    CopyInert(value, "}\"");
    CopyOrdinary(':', value + "}\"");
    CopyQuote(":" + (value + "}\""));
    CopyInert(key, "\"" + (":" + (value + "}\"")));
    CopyQuote(key + ("\"" + (":" + (value + "}\""))));
  }

  /** A quote before `#{` opens a wrapped object: the three characters become an opening brace. */
  lemma QuotedHashBracePass(rest: string)
    ensures NonEmptyPatterns(CleanTable)
    ensures Replace(CleanTable, "\"" + ("#{" + rest)) == "{" + Replace(CleanTable, rest)
  {
    FireStep(1, rest);
    QuoteThenHashBrace(rest);
  }

  lemma QuoteThenHashBrace(rest: string)
    ensures "\"" + ("#{" + rest) == CleanTable[1].pattern + rest
  {
    assert CleanTable[1].pattern == "\"" + "#{";
  }

  lemma QuotedWrappedObjectPass(key: string, value: string)
    requires PlainKey(key) && Inert(value)
    ensures NonEmptyPatterns(CleanTable)
    ensures Replace(CleanTable, QuotedWrappedObject(key, value)) == Object(key, value)
  {
    QuotedMemberPass(key, value);
    QuotedHashBracePass("\"" + (key + ("\"" + (":" + (value + "}\"")))));
  }

  /**
   * A wrapped object whose own quotes are escaped once more,
   * `\"#{\"key\":value}\"`, takes both passes: the first gives
   * `"#{"key":value}"` and the second `{"key":value}`.
   */
  lemma CleanJsonEscapedWrappedObject(key: string, value: string)
    requires PlainKey(key) && Inert(value)
    ensures Replace(CleanTable, EscapedWrappedObject(key, value)) == QuotedWrappedObject(key, value)
    ensures CleanJson(EscapedWrappedObject(key, value)) == Object(key, value)
  {
    EscapedWrappedObjectPassOne(key, value);
    QuotedWrappedObjectPass(key, value);
  }
}
