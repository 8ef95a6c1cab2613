/** Sequence operations the drivers share: list concatenation (`extend`), filtering
    (list comprehensions) and the discard-leading/trailing trim of spectra. */
module Seqs {

  function Min(a: int, b: int): int { if a <= b then a else b }

  function Max(a: int, b: int): int { if a >= b then a else b }

  /** Concatenation of `blocks` in order: repeated `list.extend`. */
  function Flatten<T>(blocks: seq<seq<T>>): seq<T>
  {
    if blocks == [] then [] else blocks[0] + Flatten(blocks[1..])
  }

  /** Appending a block appends its elements. */
  lemma {:induction false} FlattenAppend<T>(blocks: seq<seq<T>>, last: seq<T>)
    ensures Flatten(blocks + [last]) == Flatten(blocks) + last
  {
    if blocks != [] {
      assert (blocks + [last])[1..] == blocks[1..] + [last];
      FlattenAppend(blocks[1..], last);
    }
  }

  /** Concatenating `n` blocks of `size` elements gives `size * n` elements. */
  lemma {:induction false} FlattenUniformLength<T>(blocks: seq<seq<T>>, size: nat)
    requires forall b :: 0 <= b < |blocks| ==> |blocks[b]| == size
    ensures |Flatten(blocks)| == size * |blocks|
  {
    if blocks != [] {
      FlattenUniformLength(blocks[1..], size);
      MulStep(size, |blocks| - 1);
    }
  }

  /** Concatenating equal-sized blocks: offset `o` of block `b` lands at `size * b + o`. */
  lemma {:induction false} FlattenUniformAt<T>(blocks: seq<seq<T>>, size: nat, b: nat, o: nat)
    requires forall b :: 0 <= b < |blocks| ==> |blocks[b]| == size
    requires b < |blocks| && o < size
    ensures size * b + o < |Flatten(blocks)| && Flatten(blocks)[size * b + o] == blocks[b][o]
  {
    var rest := blocks[1..];
    assert Flatten(blocks) == blocks[0] + Flatten(rest);
    if b > 0 {
      FlattenUniformAt(rest, size, b - 1, o);
      var j := size * (b - 1) + o;
      MulStep(size, b - 1);
      assert size * b + o == size + j;
      assert blocks[b] == rest[b - 1];
    }
  }

  lemma MulStep(size: nat, b: nat)
    ensures size * (b + 1) == size * b + size
  {
  }

  lemma AppendAssoc<T>(a: seq<T>, b: seq<T>, c: seq<T>)
    ensures (a + b) + c == a + (b + c)
  {
  }

  /** What follows a prefix `a` in `a + b` is `b`. */
  lemma AfterPrefix<T>(a: seq<T>, b: seq<T>)
    ensures (a + b)[|a|..] == b
  {
  }

  /** `[x for x in s if keep(x)]`. */
  function Filter<T>(s: seq<T>, keep: T -> bool): (r: seq<T>)
    ensures |r| <= |s|
  {
    if s == [] then []
    else if keep(s[0]) then [s[0]] + Filter(s[1..], keep)
    else Filter(s[1..], keep)
  }

  /** A filter keeps exactly the elements it accepts. */
  lemma {:induction false} FilterMembers<T>(s: seq<T>, keep: T -> bool)
    ensures forall x | x in Filter(s, keep) :: x in s && keep(x)
    ensures forall x | x in s :: x in Filter(s, keep) <==> keep(x)
  {
    if s != [] {
      FilterMembers(s[1..], keep);
      assert s == [s[0]] + s[1..];
    }
  }

  /** The elements kept and the elements dropped by a filter together are the input. */
  lemma {:induction false} FilterPartition<T>(s: seq<T>, keep: T -> bool, drop: T -> bool)
    requires forall x :: drop(x) == !keep(x)
    ensures multiset(Filter(s, keep)) + multiset(Filter(s, drop)) == multiset(s)
  {
    if s != [] {
      var x, rest := s[0], s[1..];
      FilterPartition(rest, keep, drop);
      assert s == [x] + rest;
      FilterCons(x, rest, keep);
      FilterCons(x, rest, drop);
      assert multiset(s) == multiset{x} + multiset(rest);
    }
  }

  lemma FilterCons<T>(x: T, rest: seq<T>, keep: T -> bool)
    ensures Filter([x] + rest, keep) == if keep(x) then [x] + Filter(rest, keep) else Filter(rest, keep)
  {
    assert ([x] + rest)[0] == x && ([x] + rest)[1..] == rest;
  }

  /** Filtering keeps order: the kept elements of `a + b` are those of `a`, then those of `b`. */
  lemma {:induction false} FilterAppend<T>(a: seq<T>, b: seq<T>, keep: T -> bool)
    ensures Filter(a + b, keep) == Filter(a, keep) + Filter(b, keep)
  {
    if a == [] {
      assert a + b == b;
    } else {
      var ab := a + b;
      assert ab[0] == a[0];
      assert ab[1..] == a[1..] + b;
      FilterAppend(a[1..], b, keep);
      var tail := Filter(a[1..], keep) + Filter(b, keep);
      if keep(a[0]) {
        assert Filter(ab, keep) == [a[0]] + tail;
        assert Filter(a, keep) == [a[0]] + Filter(a[1..], keep);
      } else {
        assert Filter(ab, keep) == tail;
        assert Filter(a, keep) == Filter(a[1..], keep);
      }
    }
  }

  /** `s[:-trailing]` when trailing > 0, then `[leading:]` when leading > 0. */
  function Trim<T>(s: seq<T>, leading: nat, trailing: nat): (r: seq<T>)
    ensures |r| == Max(0, |s| - trailing - leading)
    ensures forall i :: 0 <= i < |r| ==> r[i] == s[i + leading]
  {
    var kept := if trailing > 0 then s[..Max(0, |s| - trailing)] else s;
    if leading > 0 then (if leading < |kept| then kept[leading..] else []) else kept
  }
}
