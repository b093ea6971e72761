/**
 * The fixed-capacity byte list the response builder writes into (a
 * `heapless::Vec<u8, N>`): `push` and `extend_from_slice` either append
 * everything they are given or, when it does not fit, append nothing and
 * report the failure.
 */
module Buffer {
  import Utf8

  type byte = Utf8.byte

  /**
   * `extend_from_slice` on contents `cur` of a list of capacity `cap`: all of
   * `bs` or nothing, never past the capacity, and whenever it fits, all of it.
   */
  function Extend(cur: seq<byte>, cap: nat, bs: seq<byte>): (r: seq<byte>)
    ensures r == cur + bs || r == cur
    ensures |cur| <= cap ==> |r| <= cap
    ensures |cur| + |bs| <= cap ==> |r| == |cur| + |bs|
  {
    if |cur| + |bs| <= cap then cur + bs else cur
  }

  /** The pieces laid end to end, nothing dropped. */
  function Concat(ps: seq<seq<byte>>): seq<byte> {
    if ps == [] then [] else ps[0] + Concat(ps[1..])
  }

  /** Extending with each piece in turn, each one all or nothing. */
  function ExtendAll(ps: seq<seq<byte>>, cap: nat, cur: seq<byte>): seq<byte> {
    if ps == [] then cur else ExtendAll(ps[1..], cap, Extend(cur, cap, ps[0]))
  }

  /** Extending never outgrows the capacity and never disturbs what is already there. */
  lemma {:induction false} ExtendAllBounded(ps: seq<seq<byte>>, cap: nat, cur: seq<byte>)
    ensures |cur| <= cap ==> |ExtendAll(ps, cap, cur)| <= cap
    ensures |cur| <= |ExtendAll(ps, cap, cur)| && ExtendAll(ps, cap, cur)[..|cur|] == cur
  {
    if ps != [] {
      var next := Extend(cur, cap, ps[0]);
      ExtendAllBounded(ps[1..], cap, next);
      assert next[..|cur|] == cur;
    }
  }

  /** When the pieces all fit, nothing is lost: the result is the plain concatenation. */
  lemma {:induction false} ExtendAllFits(ps: seq<seq<byte>>, cap: nat, cur: seq<byte>)
    requires |cur| + |Concat(ps)| <= cap
    ensures ExtendAll(ps, cap, cur) == cur + Concat(ps)
  {
    if ps != [] {
      ExtendAllFits(ps[1..], cap, cur + ps[0]);
      assert cur + ps[0] + Concat(ps[1..]) == cur + Concat(ps);
    }
  }

  /** Extending with one more piece. */
  lemma {:induction false} ExtendAllSnoc(ps: seq<seq<byte>>, p: seq<byte>, cap: nat, cur: seq<byte>)
    ensures ExtendAll(ps + [p], cap, cur) == Extend(ExtendAll(ps, cap, cur), cap, p)
  {
    if ps != [] {
      assert (ps + [p])[1..] == ps[1..] + [p];
      ExtendAllSnoc(ps[1..], p, cap, Extend(cur, cap, ps[0]));
    }
  }

  /** Extending with two runs of pieces, one after the other. */
  lemma {:induction false} ExtendAllAppend(ps: seq<seq<byte>>, qs: seq<seq<byte>>, cap: nat, cur: seq<byte>)
    ensures ExtendAll(ps + qs, cap, cur) == ExtendAll(qs, cap, ExtendAll(ps, cap, cur))
  {
    if ps == [] {
      assert ps + qs == qs;
    } else {
      assert (ps + qs)[0] == ps[0] && (ps + qs)[1..] == ps[1..] + qs;
      ExtendAllAppend(ps[1..], qs, cap, Extend(cur, cap, ps[0]));
    }
  }

  lemma {:induction false} ConcatAppend(ps: seq<seq<byte>>, qs: seq<seq<byte>>)
    ensures Concat(ps + qs) == Concat(ps) + Concat(qs)
  {
    if ps == [] {
      assert ps + qs == qs;
    } else {
      assert (ps + qs)[0] == ps[0] && (ps + qs)[1..] == ps[1..] + qs;
      ConcatAppend(ps[1..], qs);
    }
  }

  lemma ConcatOne(p: seq<byte>)
    ensures Concat([p]) == p
  {
    assert [p][1..] == [];
  }

  /** One single-byte piece per byte: what pushing the bytes one at a time appends. */
  function Singles(ds: seq<byte>): (ps: seq<seq<byte>>)
    ensures |ps| == |ds|
  {
    seq(|ds|, i requires 0 <= i < |ds| => [ds[i]])
  }

  lemma SinglesSnoc(ds: seq<byte>, k: nat)
    requires k < |ds|
    ensures Singles(ds[..k + 1]) == Singles(ds[..k]) + [[ds[k]]]
  {
  }

  /** Pushing one more byte of `ds`. */
  lemma PushNext(ds: seq<byte>, m: nat, cap: nat, cur: seq<byte>)
    requires m < |ds|
    ensures ExtendAll(Singles(ds[..m + 1]), cap, cur) == Extend(ExtendAll(Singles(ds[..m]), cap, cur), cap, [ds[m]])
  {
    SinglesSnoc(ds, m);
    ExtendAllSnoc(Singles(ds[..m]), [ds[m]], cap, cur);
  }

  lemma {:induction false} ConcatSingles(ds: seq<byte>)
    ensures Concat(Singles(ds)) == ds
  {
    if ds != [] {
      assert Singles(ds)[1..] == Singles(ds[1..]);
      ConcatSingles(ds[1..]);
    }
  }

  function Min(a: nat, b: nat): nat {
    if a <= b then a else b
  }

  /**
   * Pushing bytes one at a time keeps as many of the first ones as there is
   * room for: a number written digit by digit can be cut short.
   */
  lemma {:induction false} PushEachPrefix(ds: seq<byte>, cap: nat, cur: seq<byte>)
    requires |cur| <= cap
    ensures ExtendAll(Singles(ds), cap, cur) == cur + ds[..Min(|ds|, cap - |cur|)]
  {
    if ds != [] {
      SinglesTail(ds);
      var next := Extend(cur, cap, [ds[0]]);
      assert ExtendAll(Singles(ds), cap, cur) == ExtendAll(Singles(ds[1..]), cap, next);
      PushEachPrefix(ds[1..], cap, next);
      if |cur| < cap {
        TakeStep(ds, cap, cur);
      } else {
        assert ds[..0] == [] && cur + [] == cur;
      }
    }
  }

  /** Keeping `m` bytes of `ds` is keeping its first byte and `m - 1` of the rest. */
  lemma TakeStep(ds: seq<byte>, cap: nat, cur: seq<byte>)
    requires ds != [] && |cur| < cap
    ensures cur + ds[..Min(|ds|, cap - |cur|)] == (cur + [ds[0]]) + ds[1..][..Min(|ds| - 1, cap - |cur| - 1)]
  {
    var m := Min(|ds|, cap - |cur|);
    assert ds[..m] == [ds[0]] + ds[1..][..m - 1];
  }

  lemma SinglesTail(ds: seq<byte>)
    requires ds != []
    ensures Singles(ds)[0] == [ds[0]] && Singles(ds)[1..] == Singles(ds[1..])
  {
  }

  /** `heapless::Vec<u8, N>`: `len` bytes in use out of `capacity`. */
  class ByteBuffer {
    const capacity: nat
    const data: array<byte>
    var len: nat

    ghost predicate Valid()
      reads this
    {
      data.Length == capacity && len <= capacity
    }

    /** The bytes in use. */
    function Contents(): seq<byte>
      reads this, data
      requires Valid()
    {
      data[..len]
    }

    /** `Vec::new()`: an empty list of capacity `cap`. */
    constructor(cap: nat)
      ensures Valid() && capacity == cap && Contents() == []
      ensures fresh(data)
    {
      capacity := cap;
      data := new byte[cap](_ => 0);
      len := 0;
    }

    /** `push`: appends `b` when there is room; reports whether it did. */
    method Push(b: byte) returns (ok: bool)
      requires Valid()
      modifies this, data
      ensures Valid()
      ensures ok <==> old(len) < capacity
      ensures Contents() == Extend(old(Contents()), capacity, [b])
    {
      if len < capacity {
        data[len] := b;
        len := len + 1;
        ok := true;
      } else {
        ok := false;
      }
    }

    /** `extend_from_slice`: appends all of `bs` when it fits, otherwise nothing. */
    method ExtendFromSlice(bs: seq<byte>) returns (ok: bool)
      requires Valid()
      modifies this, data
      ensures Valid()
      ensures ok <==> old(len) + |bs| <= capacity
      ensures Contents() == Extend(old(Contents()), capacity, bs)
    {
      if len + |bs| > capacity {
        return false;
      }
      var k := 0;
      while k < |bs|
        invariant 0 <= k <= |bs|
        invariant len == old(len) && len + |bs| <= capacity == data.Length
        invariant data[..len] == old(data[..len])
        invariant data[len..len + k] == bs[..k]
      {
        data[len + k] := bs[k];
        k := k + 1;
      }
      assert data[..len + |bs|] == data[..len] + data[len..len + |bs|];
      len := len + |bs|;
      ok := true;
    }
  }
}
