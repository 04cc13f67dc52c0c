/**
 * Strings as the matrix text sees them: JavaScript's `split('\n')`,
 * `join('\n')`, `join('')` and `reverse()`, over the sanitised alphabet
 * {'0', '1', '\n'}.
 */
module Text {

  /** The characters that survive the input filter `/[^01\n]/g`. */
  const Alphabet: set<char> := {'0', '1', '\n'}

  predicate Sanitized(s: string) {
    forall i :: 0 <= i < |s| ==> s[i] in Alphabet
  }

  /** The distinct characters of `s`. */
  function Symbols(s: string): set<char> {
    set i | 0 <= i < |s| :: s[i]
  }

  /** `Array.prototype.reverse` on a copy (and on a string's characters). */
  function Reverse<T>(s: seq<T>): (r: seq<T>)
    ensures |r| == |s|
  {
    if s == [] then [] else Reverse(s[1..]) + [s[0]]
  }

  /** Position k of the reversal holds the k-th element from the end. */
  lemma {:induction false} ReverseAt<T>(s: seq<T>, k: int)
    requires 0 <= k < |s|
    ensures Reverse(s)[k] == s[|s| - 1 - k]
  {
    if k < |s| - 1 {
      ReverseAt(s[1..], k);
    }
  }

  lemma ReverseReverse<T>(s: seq<T>)
    ensures Reverse(Reverse(s)) == s
  {
    var r := Reverse(Reverse(s));
    forall i | 0 <= i < |s| ensures r[i] == s[i] {
      ReverseAt(Reverse(s), i);
      ReverseAt(s, |s| - 1 - i);
    }
  }

  /** Reversal keeps the elements: whatever is absent stays absent. */
  lemma ReverseAbsent<T>(s: seq<T>, x: T)
    requires x !in s
    ensures x !in Reverse(s)
  {
    forall k | 0 <= k < |s| ensures Reverse(s)[k] != x {
      ReverseAt(s, k);
    }
  }

  /** `rows.join('\n')`: the empty array joins to the empty string. */
  function Join(rows: seq<string>): string {
    if |rows| == 0 then []
    else if |rows| == 1 then rows[0]
    else rows[0] + ['\n'] + Join(rows[1..])
  }

  /** `rows.join('')`. */
  function Flatten(rows: seq<string>): string {
    if rows == [] then [] else rows[0] + Flatten(rows[1..])
  }

  /** The characters of `s` other than the row separator, in order. */
  function DropNewlines(s: string): string {
    if s == [] then []
    else if s[0] == '\n' then DropNewlines(s[1..])
    else [s[0]] + DropNewlines(s[1..])
  }

  /**
   * `s.split('\n')`: one row more than there are separators, so the empty
   * string is one empty row; no row holds a separator; joining the rows
   * gives `s` back.
   */
  function Split(s: string): (rows: seq<string>)
    ensures |rows| >= 1
    ensures forall i :: 0 <= i < |rows| ==> '\n' !in rows[i]
    ensures Join(rows) == s
  {
    if s == [] then [[]]
    else
      var rest := Split(s[1..]);
      if s[0] == '\n' then
        [[]] + rest
      else
        var rows := [[s[0]] + rest[0]] + rest[1..];
        assert rows[1..] == rest[1..];
        rows
  }

  predicate NoSeparator(rows: seq<string>) {
    forall i :: 0 <= i < |rows| ==> '\n' !in rows[i]
  }

  /** Splitting a text whose first row is `r` peels `r` off the front. */
  lemma {:induction false} SplitPrefix(r: string, t: string)
    requires '\n' !in r
    ensures Split(r + t) == [r + Split(t)[0]] + Split(t)[1..]
  {
    if r != [] {
      assert (r + t)[1..] == r[1..] + t;
      SplitPrefix(r[1..], t);
      var rest := Split(r[1..] + t);
      assert (r + t)[0] == r[0] && r[0] != '\n';
      assert rest[0] == r[1..] + Split(t)[0] && rest[1..] == Split(t)[1..];
      assert [r[0]] + (r[1..] + Split(t)[0]) == r + Split(t)[0];
    } else {
      assert r + t == t;
      assert r + Split(t)[0] == Split(t)[0];
      assert Split(t) == [Split(t)[0]] + Split(t)[1..];
    }
  }

  /** Splitting after joining gives the rows back (`split` inverts `join`). */
  lemma {:induction false} SplitJoin(rows: seq<string>)
    requires |rows| >= 1 && NoSeparator(rows)
    ensures Split(Join(rows)) == rows
  {
    if |rows| == 1 {
      SplitPrefix(rows[0], []);
      assert rows[0] + [] == rows[0];
    } else {
      var t := ['\n'] + Join(rows[1..]);
      SplitJoin(rows[1..]);
      assert Join(rows) == rows[0] + t;
      SplitPrefix(rows[0], t);
      assert t[1..] == Join(rows[1..]);
      assert Split(t) == [[]] + rows[1..];
      assert Split(t)[0] == [] && Split(t)[1..] == rows[1..];
      assert rows[0] + [] == rows[0];
      assert rows == [rows[0]] + rows[1..];
    }
  }

  /** Joining two non-empty row lists puts one separator between them. */
  lemma {:induction false} JoinAppend(a: seq<string>, b: seq<string>)
    requires |a| >= 1 && |b| >= 1
    ensures Join(a + b) == Join(a) + ['\n'] + Join(b)
  {
    if |a| == 1 {
      assert (a + b)[1..] == b;
    } else {
      assert (a + b)[1..] == a[1..] + b;
      JoinAppend(a[1..], b);
    }
  }

  /** Flattening the rows of `s` deletes its separators and nothing else. */
  lemma {:induction false} FlattenSplit(s: string)
    ensures Flatten(Split(s)) == DropNewlines(s)
  {
    if s != [] {
      var rest := Split(s[1..]);
      FlattenSplit(s[1..]);
      if s[0] != '\n' {
        var rows := [[s[0]] + rest[0]] + rest[1..];
        assert rows[1..] == rest[1..];
        assert Flatten(rest) == rest[0] + Flatten(rest[1..]);
      }
    }
  }

  /** Joined rows contain only the rows' characters and separators. */
  lemma {:induction false} JoinSanitized(rows: seq<string>)
    requires forall i :: 0 <= i < |rows| ==> Sanitized(rows[i])
    ensures Sanitized(Join(rows))
  {
    if |rows| > 1 {
      JoinSanitized(rows[1..]);
    }
  }

  lemma {:induction false} FlattenSanitized(rows: seq<string>)
    requires forall i :: 0 <= i < |rows| ==> Sanitized(rows[i])
    ensures Sanitized(Flatten(rows))
  {
    if rows != [] {
      FlattenSanitized(rows[1..]);
    }
  }

  /** The rows of a sanitised text are sanitised. */
  lemma {:induction false} SplitSanitized(s: string)
    requires Sanitized(s)
    ensures forall i :: 0 <= i < |Split(s)| ==> Sanitized(Split(s)[i])
  {
    if s != [] {
      SplitSanitized(s[1..]);
      var rest := Split(s[1..]);
      if s[0] != '\n' {
        assert Sanitized([s[0]] + rest[0]);
      }
    }
  }

  /** A sanitised row that reads differently backwards holds both '0' and '1'. */
  lemma NonPalindromeHoldsBoth(r: string)
    requires Sanitized(r) && '\n' !in r && r != Reverse(r)
    ensures '0' in r && '1' in r
  {
    assert exists k :: 0 <= k < |r| && r[k] != Reverse(r)[k];
    var k :| 0 <= k < |r| && r[k] != Reverse(r)[k];
    ReverseAt(r, k);
    assert r[k] in Alphabet && r[|r| - 1 - k] in Alphabet;
  }

  /** A text holding both '0' and '1' has at least two distinct characters. */
  lemma BothSymbols(s: string)
    requires '0' in s && '1' in s
    ensures |Symbols(s)| >= 2
  {
    var i :| 0 <= i < |s| && s[i] == '0';
    var j :| 0 <= j < |s| && s[j] == '1';
    assert {'0', '1'} <= Symbols(s);
    assert Symbols(s) == {'0', '1'} + (Symbols(s) - {'0', '1'});
  }

  /** Every character of a row appears in the rows joined with separators. */
  lemma {:induction false} InJoin(rows: seq<string>, k: int, c: char)
    requires 0 <= k < |rows| && c in rows[k]
    ensures c in Join(rows)
  {
    if k > 0 {
      InJoin(rows[1..], k - 1, c);
    }
  }

  /** Every character of a row appears in the rows concatenated. */
  lemma {:induction false} InFlatten(rows: seq<string>, k: int, c: char)
    requires 0 <= k < |rows| && c in rows[k]
    ensures c in Flatten(rows)
  {
    if k > 0 {
      InFlatten(rows[1..], k - 1, c);
    }
  }

}
