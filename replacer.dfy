/**
 * A model of Go's generic `strings.Replacer` (the one `strings.NewReplacer`
 * builds when some pattern is longer than one byte).
 *
 * It is not a chain of find-and-replace passes: `Replace` makes one scan from
 * left to right. At each position the first pair, in argument order, whose
 * pattern starts there wins; its replacement is emitted and the scan resumes
 * just after the match. When no pattern starts at a position, one character is
 * copied. A pattern that appears twice in the table keeps its first
 * replacement, because the earlier pair always wins.
 */
module Replacer {
  import opened Wrappers

  /** One (old, new) argument pair of `strings.NewReplacer`. */
  datatype Pair = Pair(pattern: string, replacement: string)

  /** Every pattern is non-empty (an empty Go pattern would match everywhere). */
  predicate NonEmptyPatterns(table: seq<Pair>) {
    forall k :: 0 <= k < |table| ==> |table[k].pattern| > 0
  }

  /** Every replacement is strictly shorter than the pattern it replaces. */
  predicate Shortening(table: seq<Pair>) {
    forall k :: 0 <= k < |table| ==> |table[k].replacement| < |table[k].pattern|
  }

  /** Some pattern of the table starts at position `i` of `s`. */
  predicate OccursAt(table: seq<Pair>, s: string, i: nat)
    requires i <= |s|
  {
    exists k :: 0 <= k < |table| && table[k].pattern <= s[i..]
  }

  /** Some pattern of the table occurs anywhere in `s`. */
  predicate Occurs(table: seq<Pair>, s: string) {
    exists i :: 0 <= i < |s| && OccursAt(table, s, i)
  }

  /** The pair that wins at the start of `s`: the first one in table order whose pattern is a prefix of `s`. */
  function FirstMatch(table: seq<Pair>, s: string): (r: Option<Pair>)
    ensures r.Some? ==> r.value in table && r.value.pattern <= s
  {
    if table == [] then None
    else if table[0].pattern <= s then Some(table[0])
    else FirstMatch(table[1..], s)
  }

  /**
   * `FirstMatch` finds a pair of the table whose pattern starts `s` and that no
   * earlier pair could have matched, and it finds none only when no pattern starts `s`.
   */
  lemma {:induction false} FirstMatchSpec(table: seq<Pair>, s: string)
    ensures FirstMatch(table, s).Some? ==>
      exists k :: 0 <= k < |table| && table[k] == FirstMatch(table, s).value && table[k].pattern <= s &&
        forall j :: 0 <= j < k ==> !(table[j].pattern <= s)
    ensures FirstMatch(table, s).None? <==> forall k :: 0 <= k < |table| ==> !(table[k].pattern <= s)
  {
    if table == [] {
    } else if table[0].pattern <= s {
      assert table[0] == FirstMatch(table, s).value;
    } else {
      FirstMatchSpec(table[1..], s);
      var r := FirstMatch(table[1..], s);
      if r.Some? {
        var k' :| 0 <= k' < |table[1..]| && table[1..][k'] == r.value && table[1..][k'].pattern <= s &&
          forall j :: 0 <= j < k' ==> !(table[1..][j].pattern <= s);
        assert table[k' + 1] == r.value;
        forall j | 0 <= j < k' + 1 ensures !(table[j].pattern <= s) {
          if j > 0 { assert table[j] == table[1..][j - 1]; }
        }
      } else {
        forall k | 0 <= k < |table| ensures !(table[k].pattern <= s) {
          if k > 0 { assert table[k] == table[1..][k - 1]; }
        }
      }
    }
  }

  /** The first pair whose pattern starts `s` is the one `FirstMatch` returns. */
  lemma {:induction false} FirstMatchIs(table: seq<Pair>, s: string, k: nat)
    requires k < |table| && table[k].pattern <= s
    requires forall j :: 0 <= j < k ==> !(table[j].pattern <= s)
    ensures FirstMatch(table, s) == Some(table[k])
  {
    if k > 0 {
      assert table[1..][k - 1] == table[k];
      FirstMatchIs(table[1..], s, k - 1);
    }
  }

  /** When no pattern starts `s`, `FirstMatch` returns nothing. */
  lemma FirstMatchNone(table: seq<Pair>, s: string)
    requires forall j :: 0 <= j < |table| ==> !(table[j].pattern <= s)
    ensures FirstMatch(table, s) == None
  {
  }

  /**
   * `replacer.Replace(s)`: the one left-to-right scan described above. When
   * every replacement is shorter than its pattern, the output is no longer
   * than the input.
   */
  function Replace(table: seq<Pair>, s: string): (r: string)
    requires NonEmptyPatterns(table)
    ensures Shortening(table) ==> |r| <= |s|
    decreases |s|
  {
    if s == [] then []
    else
      FirstMatchSpec(table, s);
      match FirstMatch(table, s)
      case Some(p) =>
        assert Shortening(table) ==> |p.replacement| < |p.pattern| by {
          var k :| 0 <= k < |table| && table[k] == p;
        }
        p.replacement + Replace(table, s[|p.pattern|..])
      case None => [s[0]] + Replace(table, s[1..])
  }

  lemma ShorteningIsNonEmpty(table: seq<Pair>)
    requires Shortening(table)
    ensures NonEmptyPatterns(table)
  {
  }

  /** An occurrence at position i > 0 of `s` is an occurrence at i - 1 of `s[1..]`, and back. */
  lemma OccursAtTail(table: seq<Pair>, s: string, i: nat)
    requires 1 <= i <= |s|
    ensures OccursAt(table, s, i) == OccursAt(table, s[1..], i - 1)
  {
  }

  /**
   * With shortening pairs, a scan never lengthens its input, and it shortens
   * it strictly as soon as any pattern occurs anywhere in the input.
   */
  lemma {:induction false} ReplaceNeverLonger(table: seq<Pair>, s: string)
    requires Shortening(table)
    ensures NonEmptyPatterns(table)
    ensures |Replace(table, s)| <= |s|
    ensures Occurs(table, s) ==> |Replace(table, s)| < |s|
    decreases |s|
  {
    ShorteningIsNonEmpty(table);
    if s != [] {
      match FirstMatch(table, s)
      case Some(p) =>
        FirstMatchSpec(table, s);
        var k :| 0 <= k < |table| && table[k] == p && table[k].pattern <= s;
        ReplaceNeverLonger(table, s[|p.pattern|..]);
      case None =>
        FirstMatchSpec(table, s);
        ReplaceNeverLonger(table, s[1..]);
        assert s[0..] == s;
        if Occurs(table, s) {
          var i :| 0 <= i < |s| && OccursAt(table, s, i);
          OccursAtTail(table, s, i);
          assert Occurs(table, s[1..]);
        }
    }
  }

  /** Where no pattern occurs, the scan copies its input unchanged. */
  lemma {:induction false} ReplaceUnchanged(table: seq<Pair>, s: string)
    requires NonEmptyPatterns(table)
    requires !Occurs(table, s)
    ensures Replace(table, s) == s
    decreases |s|
  {
    if s != [] {
      assert s[0..] == s;
      assert !OccursAt(table, s, 0);
      FirstMatchSpec(table, s);
      assert FirstMatch(table, s) == None;
      forall i | 0 <= i < |s[1..]| ensures !OccursAt(table, s[1..], i) {
        OccursAtTail(table, s, i + 1);
      }
      ReplaceUnchanged(table, s[1..]);
      assert [s[0]] + s[1..] == s;
    }
  }

  /** With shortening pairs, `s` is a fixed point of the scan exactly when no pattern occurs in it. */
  lemma ReplaceFixedPointIff(table: seq<Pair>, s: string)
    requires Shortening(table)
    ensures NonEmptyPatterns(table)
    ensures Replace(table, s) == s <==> !Occurs(table, s)
  {
    ReplaceNeverLonger(table, s);
    if !Occurs(table, s) {
      ReplaceUnchanged(table, s);
    }
  }

  /**
   * Removing a pair `q` from a table changes no winner when `q` cannot match
   * here or an earlier pair has the very same pattern (that pair always wins first).
   */
  lemma {:induction false} FirstMatchSkip(pre: seq<Pair>, q: Pair, post: seq<Pair>, s: string)
    requires !(q.pattern <= s) || exists k :: 0 <= k < |pre| && pre[k].pattern == q.pattern
    ensures FirstMatch(pre + [q] + post, s) == FirstMatch(pre + post, s)
    decreases |pre|
  {
    if pre == [] {
      assert pre + [q] + post == [q] + post;
      assert pre + post == post;
      assert ([q] + post)[1..] == post;
    } else {
      assert (pre + [q] + post)[0] == pre[0] && (pre + post)[0] == pre[0];
      if !(pre[0].pattern <= s) {
        assert (pre + [q] + post)[1..] == pre[1..] + [q] + post;
        assert (pre + post)[1..] == pre[1..] + post;
        if q.pattern <= s {
          var k :| 0 <= k < |pre| && pre[k].pattern == q.pattern;
          assert k != 0;
          assert pre[1..][k - 1] == pre[k];
        }
        FirstMatchSkip(pre[1..], q, post, s);
      }
    }
  }

  /** A pair whose pattern already appears earlier in the table never fires: the scan is the same without it. */
  lemma {:induction false} ReplaceIgnoresShadowed(pre: seq<Pair>, q: Pair, post: seq<Pair>, s: string)
    requires NonEmptyPatterns(pre + [q] + post)
    requires exists k :: 0 <= k < |pre| && pre[k].pattern == q.pattern
    ensures NonEmptyPatterns(pre + post)
    ensures Replace(pre + [q] + post, s) == Replace(pre + post, s)
    decreases |s|
  {
    assert NonEmptyPatterns(pre + post) by {
      forall k | 0 <= k < |pre + post| ensures |(pre + post)[k].pattern| > 0 {
        if k < |pre| {
          assert (pre + post)[k] == (pre + [q] + post)[k];
        } else {
          assert (pre + post)[k] == (pre + [q] + post)[k + 1];
        }
      }
    }
    if s != [] {
      FirstMatchSkip(pre, q, post, s);
      FirstMatchSpec(pre + post, s);
      match FirstMatch(pre + post, s)
      case Some(p) =>
        ReplaceIgnoresShadowed(pre, q, post, s[|p.pattern|..]);
      case None =>
        ReplaceIgnoresShadowed(pre, q, post, s[1..]);
    }
  }
}
