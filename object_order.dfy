/**
 * The order in which `Object.entries` lists the keys of a plain object
 * whose keys are one-character strings of the sanitised alphabet:
 * integer-like keys ("0", "1") first in ascending order, then the other
 * keys ("\n") in insertion order.
 */
module ObjectOrder {
  import opened Text

  const KeyOrder: seq<char> := ['0', '1', '\n']

  /** The elements of `order` that are keys of `m`, in the order given. */
  function KeysFrom<V>(order: seq<char>, m: map<char, V>): (ks: seq<char>)
    ensures forall c :: c in ks <==> c in order && c in m
  {
    if order == [] then []
    else if order[0] in m then [order[0]] + KeysFrom(order[1..], m)
    else KeysFrom(order[1..], m)
  }

  ghost predicate Distinct<T>(s: seq<T>) {
    forall i, j :: 0 <= i < j < |s| ==> s[i] != s[j]
  }

  lemma {:induction false} KeysFromDistinct<V>(order: seq<char>, m: map<char, V>)
    requires Distinct(order)
    ensures Distinct(KeysFrom(order, m))
  {
    if order != [] {
      KeysFromDistinct(order[1..], m);
      var rest := KeysFrom(order[1..], m);
      assert order[0] !in order[1..];
      assert order[0] !in rest;
    }
  }

  /** A repetition-free sequence has as many elements as its set. */
  lemma {:induction false} DistinctCard<T>(s: seq<T>)
    requires Distinct(s)
    ensures |set x | x in s| == |s|
  {
    if s != [] {
      DistinctCard(s[1..]);
      assert (set x | x in s) == {s[0]} + (set x | x in s[1..]);
      assert s[0] !in s[1..];
    }
  }

  /** The position of a key of the alphabet in `KeyOrder`. */
  function Rank(c: char): nat {
    if c == '0' then 0 else if c == '1' then 1 else 2
  }

  /** Every element comes before each element of higher rank only. */
  predicate RankOrdered(s: seq<char>) {
    forall i, j :: 0 <= i < j < |s| ==> Rank(s[i]) < Rank(s[j])
  }

  /** Keeping some elements of a list ordered by rank keeps them ordered by rank. */
  lemma {:induction false} KeysFromOrdered<V>(order: seq<char>, m: map<char, V>)
    requires RankOrdered(order)
    ensures RankOrdered(KeysFrom(order, m))
  {
    if order != [] {
      var tail := order[1..];
      var rest := KeysFrom(tail, m);
      assert RankOrdered(tail) by {
        forall i, j | 0 <= i < j < |tail| ensures Rank(tail[i]) < Rank(tail[j]) {
          assert tail[i] == order[i + 1] && tail[j] == order[j + 1];
        }
      }
      KeysFromOrdered(tail, m);
      if order[0] in m {
        var ks := [order[0]] + rest;
        assert KeysFrom(order, m) == ks;
        forall i, j | 0 <= i < j < |ks| ensures Rank(ks[i]) < Rank(ks[j]) {
          assert ks[j] == rest[j - 1];
          if i == 0 {
            assert rest[j - 1] in rest;
            var k :| 0 <= k < |tail| && tail[k] == rest[j - 1];
            assert order[k + 1] == rest[j - 1];
          } else {
            assert ks[i] == rest[i - 1];
          }
        }
      } else {
        assert KeysFrom(order, m) == rest;
      }
    }
  }

  /**
   * The keys come out in `Object.entries` order: "0" before "1" before
   * "\n", whichever of them are present.
   */
  lemma KeysInEntryOrder<V>(m: map<char, V>)
    requires m.Keys <= Alphabet
    ensures RankOrdered(KeysInOrder(m))
  {
    assert KeysInOrder(m) == KeysFrom(KeyOrder, m);
    KeysFromOrdered(KeyOrder, m);
  }

  /**
   * The keys of `m` in `Object.entries` order: each key exactly once, so
   * there are as many as `m` has entries.
   */
  function KeysInOrder<V>(m: map<char, V>): (ks: seq<char>)
    requires m.Keys <= Alphabet
    ensures forall c :: c in ks <==> c in m
    ensures Distinct(ks)
    ensures |ks| == |m|
  {
    var ks := KeysFrom(KeyOrder, m);
    KeysFromDistinct(KeyOrder, m);
    DistinctCard(ks);
    assert (set c | c in ks) == m.Keys;
    ks
  }

}
