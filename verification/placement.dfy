/** Where records land when several are spliced into a body, or cut out of
    it, one after another at offsets found before any of them: both
    reserve edits work from the highest offset down, so no splice moves
    the bytes a later one aims at. The closed forms below say where each
    block ends up in terms of the original body, and the lemmas show that
    doing the splices one by one, highest offset first, gives them. */
module Placement {
  import opened Bytes
  import opened AdfProfile

  /** Every offset in `os` is at least `m`. */
  predicate AtLeast(os: seq<int>, m: int)
  {
    forall k :: 0 <= k < |os| ==> m <= os[k]
  }

  /** The tail of a list with one more element at the end. */
  lemma {:induction false} SnocTail<T>(xs: seq<T>, x: T)
    requires xs != []
    ensures (xs + [x])[0] == xs[0] && (xs + [x])[1..] == xs[1..] + [x]
  {
    assert forall k :: 0 <= k < |xs| - 1 ==> (xs + [x])[1..][k] == (xs[1..] + [x])[k];
  }

  /** The head and tail of a joined list. */
  lemma {:induction false} ConsAppend(cs: seq<int>, es: seq<int>)
    requires cs != []
    ensures (cs + es)[0] == cs[0] && (cs + es)[1..] == cs[1..] + es
  {
    assert forall k :: 0 <= k < |cs| + |es| - 1 ==> (cs + es)[1..][k] == (cs[1..] + es)[k];
  }

  /** A bound on every offset holds for the tail. */
  lemma {:induction false} AtLeastTail(os: seq<int>, m: int)
    requires os != [] && AtLeast(os, m)
    ensures m <= os[0] && AtLeast(os[1..], m)
  {
    assert forall k :: 0 <= k < |os| - 1 ==> os[1..][k] == os[k + 1];
  }

  // ---------------------------------------------------------------------
  // Insertions.

  /** Offsets `ps` into a body of length `n` at which blocks can go in one
      after another: the first within the body, and the rest, in turn, at
      or below it. */
  predicate SpliceFits(ps: seq<int>, n: int)
    decreases |ps|
  {
    ps == [] || (0 <= ps[0] <= n && SpliceFits(ps[1..], ps[0]))
  }

  /** One more offset at or below all the others still fits. */
  lemma {:induction false} SpliceFitsSnoc(ps: seq<int>, n: int, p: int)
    requires SpliceFits(ps, n) && 0 <= p <= n && AtLeast(ps, p)
    ensures SpliceFits(ps + [p], n)
    decreases |ps|
  {
    if ps == [] {
      assert ps + [p] == [p] && [p][1..] == [];
    } else {
      AtLeastTail(ps, p);
      SpliceFitsSnoc(ps[1..], ps[0], p);
      SnocTail(ps, p);
    }
  }

  /** Body `s` with block `bs[k]` put in at original offset `ps[k]` for
      every `k`, for descending offsets: the bytes of `s` in their order,
      with `bs[k]` right in front of the byte that stood at `ps[k]`, and a
      later block in front of an earlier one at the same offset. */
  function SplicedAt(s: seq<byte>, ps: seq<int>, bs: seq<seq<byte>>): (r: seq<byte>)
    requires |ps| == |bs| && SpliceFits(ps, |s|)
    ensures |r| >= |s|
    decreases |ps|
  {
    if ps == [] then s
    else SplicedAt(s[..ps[0]], ps[1..], bs[1..]) + bs[0] + s[ps[0]..]
  }

  /** Putting `b` in at `p` inside the first part of `y + c + d`. */
  lemma {:induction false} PutInFront(y: seq<byte>, c: seq<byte>, d: seq<byte>, p: nat, b: seq<byte>)
    requires p <= |y|
    ensures (y + c + d)[..p] + b + (y + c + d)[p..] == (y[..p] + b + y[p..]) + c + d
  {
    var x := y + c + d;
    assert forall i :: 0 <= i < p ==> x[i] == y[i];
    assert x[..p] == y[..p];
    assert forall i :: 0 <= i < |x| - p ==> x[p..][i] == (y[p..] + c + d)[i];
    assert x[p..] == y[p..] + c + d;
  }

  /** Putting block `b` in at offset `p`, at or below every offset already
      used, into the body the earlier blocks gave, is splicing all of them
      into the original body. */
  lemma {:induction false} SplicedAtSnoc(s: seq<byte>, ps: seq<int>, bs: seq<seq<byte>>, p: int, b: seq<byte>)
    requires |ps| == |bs| && SpliceFits(ps, |s|)
    requires 0 <= p <= |s| && AtLeast(ps, p)
    ensures SpliceFits(ps + [p], |s|)
    ensures p <= |SplicedAt(s, ps, bs)|
    ensures SplicedAt(s, ps + [p], bs + [b]) == SplicedAt(s, ps, bs)[..p] + b + SplicedAt(s, ps, bs)[p..]
    decreases |ps|
  {
    var ps2, bs2 := ps + [p], bs + [b];
    SpliceFitsSnoc(ps, |s|, p);
    if ps == [] {
      assert ps2 == [p] && bs2 == [b] && ps2[1..] == [] && bs2[1..] == [];
      assert SplicedAt(s, ps2, bs2) == SplicedAt(s[..p], [], []) + b + s[p..];
    } else {
      AtLeastTail(ps, p);
      SnocTail(ps, p);
      SnocTail(bs, b);
      var t, d := s[..ps[0]], s[ps[0]..];
      SplicedAtSnoc(t, ps[1..], bs[1..], p, b);
      var y := SplicedAt(t, ps[1..], bs[1..]);
      assert SplicedAt(s, ps, bs) == y + bs[0] + d;
      assert SplicedAt(s, ps2, bs2) == SplicedAt(t, ps[1..] + [p], bs[1..] + [b]) + bs[0] + d;
      PutInFront(y, bs[0], d, p, b);
    }
  }

  /** One unfolding of `SplicedAt`, with its parts named. */
  lemma {:induction false} SplicedAtFirst(s: seq<byte>, ps: seq<int>, bs: seq<seq<byte>>, p: int, ps': seq<int>,
                                          bs': seq<seq<byte>>, t: seq<byte>, d: seq<byte>)
    requires ps != [] && |ps| == |bs| && SpliceFits(ps, |s|) && p == ps[0] && ps' == ps[1..] && bs' == bs[1..]
    requires 0 <= p <= |s| && t == s[..p] && d == s[p..]
    ensures |ps'| == |bs'| && SpliceFits(ps', |t|)
    ensures SplicedAt(s, ps, bs) == SplicedAt(t, ps', bs') + (bs[0] + d)
  {
  }

  /** What splicing at or after `h` leaves from `h` on depends only on the
      bytes from `h` on. */
  lemma {:induction false} SplicedAtTail(x: seq<byte>, y: seq<byte>, ps: seq<int>, bs: seq<seq<byte>>, h: nat)
    requires |x| == |y| && |ps| == |bs| && SpliceFits(ps, |x|) && h <= |x| && x[h..] == y[h..] && AtLeast(ps, h)
    ensures h <= |SplicedAt(x, ps, bs)|
    ensures SplicedAt(x, ps, bs)[h..] == SplicedAt(y, ps, bs)[h..]
    decreases |ps|
  {
    if ps != [] {
      var p := ps[0];
      AtLeastTail(ps, h);
      var tx, ty := x[..p], y[..p];
      assert tx[h..] == x[h..][..p - h] == ty[h..];
      SplicedAtTail(tx, ty, ps[1..], bs[1..], h);
      var d := x[p..];
      assert d == x[h..][p - h..] == y[p..];
      SplicedAtFirst(x, ps, bs, p, ps[1..], bs[1..], tx, d);
      SplicedAtFirst(y, ps, bs, p, ps[1..], bs[1..], ty, d);
      FromInFront(SplicedAt(tx, ps[1..], bs[1..]), bs[0] + d, h);
      FromInFront(SplicedAt(ty, ps[1..], bs[1..]), bs[0] + d, h);
    }
  }

  /** A body `r` that is `prev` with `b` put in at `p`, where `prev`
      agrees with `x` from `h` on, agrees from `h` on with `x` with `b` put
      in at `p`: the step from one splice to the next, seen from `h`. */
  lemma {:induction false} SpliceStep(prev: seq<byte>, r: seq<byte>, x: seq<byte>, b: seq<byte>, h: nat, p: nat)
    requires h <= p <= |prev| && |prev| == |x| && prev[h..] == x[h..]
    requires |r| == |prev| + |b| && r[p..] == b + prev[p..]
    requires forall q :: h <= q < p ==> r[q] == prev[q]
    ensures r[h..] == (x[..p] + b + x[p..])[h..]
  {
    var y := x[..p] + b + x[p..];
    forall i | h <= i < |r|
      ensures r[i] == y[i]
    {
      if i < p {
        assert prev[h..][i - h] == x[h..][i - h];
      } else if i < p + |b| {
        assert r[p..][i - p] == b[i - p];
      } else {
        assert r[p..][i - p] == prev[p..][i - p - |b|];
        assert prev[h..][i - |b| - h] == x[h..][i - |b| - h];
      }
    }
    assert forall i :: 0 <= i < |r| - h ==> r[h..][i] == y[h..][i];
  }

  // ---------------------------------------------------------------------
  // Deletions.

  /** Offsets `os` of records in a body of length `n` that can go one
      after another: the first record inside the body, and the rest, in
      turn, in front of it. */
  predicate CutsFit(os: seq<int>, n: int)
    decreases |os|
  {
    os == [] || (0 <= os[0] && os[0] + AnimalSize <= n && CutsFit(os[1..], os[0]))
  }

  /** Cuts below some records, and fitting in the body, fit after them. */
  lemma {:induction false} CutsFitAppend(cs: seq<int>, es: seq<int>, n: int)
    requires CutsFit(cs, n) && CutsFit(es, n) && (es == [] || AtLeast(cs, es[0] + AnimalSize))
    ensures CutsFit(cs + es, n)
    decreases |cs|
  {
    if cs == [] {
      assert cs + es == es;
    } else {
      ConsAppend(cs, es);
      if es != [] {
        AtLeastTail(cs, es[0] + AnimalSize);
      }
      CutsFitAppend(cs[1..], es, cs[0]);
    }
  }

  /** Body `s` without the record at original offset `os[k]` for every
      `k`, for descending offsets: the remaining bytes of `s` in their
      order, one record shorter per cut. */
  function ExcisedAt(s: seq<byte>, os: seq<int>): (r: seq<byte>)
    requires CutsFit(os, |s|)
    ensures |r| == |s| - AnimalSize * |os|
    decreases |os|
  {
    if os == [] then s
    else ExcisedAt(s[..os[0]], os[1..]) + s[os[0] + AnimalSize..]
  }

  /** Cutting at a list of offsets cuts the first record, at `c`, after
      the rest, `os'`, have gone from the bytes `t` in front of it; `d` is
      what follows the record. */
  lemma {:induction false} ExcisedAtFirst(s: seq<byte>, os: seq<int>, c: int, os': seq<int>, t: seq<byte>, d: seq<byte>)
    requires os != [] && CutsFit(os, |s|) && c == os[0] && os' == os[1..]
    requires 0 <= c && c + AnimalSize <= |s| && t == s[..c] && d == s[c + AnimalSize..]
    ensures CutsFit(os', |t|) && ExcisedAt(s, os) == ExcisedAt(t, os') + d
  {
  }

  /** Cuts inside the first part of `y + d` leave `d` as it is. */
  lemma {:induction false} ExcisedAtInFront(y: seq<byte>, d: seq<byte>, es: seq<int>)
    requires CutsFit(es, |y|)
    ensures CutsFit(es, |y + d|) && ExcisedAt(y + d, es) == ExcisedAt(y, es) + d
  {
    if es != [] {
      var e := es[0];
      FromInFront(y, d, e);
      FromInFront(y, d, e + AnimalSize);
      assert ExcisedAt(y + d, es) == ExcisedAt((y + d)[..e], es[1..]) + (y + d)[e + AnimalSize..];
    }
  }

  /** Cutting `cs` and then `es`, all of `es` below all of `cs`, is
      cutting them all at once. */
  lemma {:induction false} ExcisedAtAppend(s: seq<byte>, cs: seq<int>, es: seq<int>)
    requires CutsFit(cs, |s|) && CutsFit(es, |s|) && (es == [] || AtLeast(cs, es[0] + AnimalSize))
    ensures CutsFit(cs + es, |s|) && CutsFit(es, |ExcisedAt(s, cs)|)
    ensures ExcisedAt(s, cs + es) == ExcisedAt(ExcisedAt(s, cs), es)
    decreases |cs|
  {
    CutsFitAppend(cs, es, |s|);
    if cs == [] {
      assert cs + es == es;
    } else {
      var c := cs[0];
      var t, d := s[..c], s[c + AnimalSize..];
      ExcisedAtFirst(s, cs, c, cs[1..], t, d);
      if es != [] {
        AtLeastTail(cs, es[0] + AnimalSize);
      }
      ExcisedAtAppend(t, cs[1..], es);
      var y := ExcisedAt(t, cs[1..]);
      ConsAppend(cs, es);
      ExcisedAtFirst(s, cs + es, c, cs[1..] + es, t, d);
      assert ExcisedAt(s, cs + es) == ExcisedAt(y, es) + d;
      ExcisedAtInFront(y, d, es);
    }
  }

  /** Cutting the record at `o`, a record or more below every offset
      already cut, out of the body the earlier cuts gave is cutting all of
      them out of the original body. */
  lemma {:induction false} ExcisedAtSnoc(s: seq<byte>, os: seq<int>, o: int)
    requires CutsFit(os, |s|)
    requires 0 <= o && o + AnimalSize <= |s| && AtLeast(os, o + AnimalSize)
    ensures CutsFit(os + [o], |s|)
    ensures o + AnimalSize <= |ExcisedAt(s, os)|
    ensures ExcisedAt(s, os + [o]) == ExcisedAt(s, os)[..o] + ExcisedAt(s, os)[o + AnimalSize..]
  {
    assert [o][1..] == [];
    ExcisedAtAppend(s, os, [o]);
    var x := ExcisedAt(s, os);
    assert ExcisedAt(x, [o]) == ExcisedAt(x[..o], []) + x[o + AnimalSize..];
  }

  /** The part from `h` on of `y + d`, for `h` inside `y`. */
  lemma {:induction false} FromInFront(y: seq<byte>, d: seq<byte>, h: nat)
    requires h <= |y|
    ensures (y + d)[h..] == y[h..] + d && (y + d)[..h] == y[..h]
  {
    assert forall i :: 0 <= i < |y| + |d| - h ==> (y + d)[h..][i] == (y[h..] + d)[i];
    assert forall i :: 0 <= i < h ==> (y + d)[..h][i] == y[i];
  }

  /** What cutting at or after `h` leaves from `h` on depends only on the
      bytes from `h` on. */
  lemma {:induction false} ExcisedAtTail(x: seq<byte>, y: seq<byte>, os: seq<int>, h: nat)
    requires |x| == |y| && CutsFit(os, |x|) && h <= |x| && x[h..] == y[h..] && AtLeast(os, h)
    ensures h <= |ExcisedAt(x, os)|
    ensures ExcisedAt(x, os)[h..] == ExcisedAt(y, os)[h..]
    decreases |os|
  {
    if os != [] {
      var o := os[0];
      AtLeastTail(os, h);
      var tx, ty := x[..o], y[..o];
      assert tx[h..] == x[h..][..o - h] == ty[h..];
      ExcisedAtTail(tx, ty, os[1..], h);
      var d := x[o + AnimalSize..];
      assert d == x[h..][o + AnimalSize - h..] == y[o + AnimalSize..];
      var ex, ey := ExcisedAt(tx, os[1..]), ExcisedAt(ty, os[1..]);
      ExcisedAtFirst(x, os, o, os[1..], tx, d);
      ExcisedAtFirst(y, os, o, os[1..], ty, d);
      FromInFront(ex, d, h);
      FromInFront(ey, d, h);
    }
  }

  /** The bytes in front of every cut stay where they were. */
  lemma {:induction false} ExcisedAtKeepsFront(s: seq<byte>, os: seq<int>, m: nat)
    requires CutsFit(os, |s|) && m <= |s| && AtLeast(os, m)
    ensures m <= |ExcisedAt(s, os)| && ExcisedAt(s, os)[..m] == s[..m]
    decreases |os|
  {
    if os != [] {
      AtLeastTail(os, m);
      var t, d := s[..os[0]], s[os[0] + AnimalSize..];
      ExcisedAtKeepsFront(t, os[1..], m);
      var y := ExcisedAt(t, os[1..]);
      ExcisedAtFirst(s, os, os[0], os[1..], t, d);
      FromInFront(y, d, m);
      assert t[..m] == s[..m];
    }
  }

  /** A body `r` that is `prev` without the record at `at`, where `prev`
      agrees with `x` from `h` on, agrees from `h` on with `x` without the
      record at `at`: the step from one cut to the next, seen from `h`. */
  lemma {:induction false} CutStep(prev: seq<byte>, r: seq<byte>, x: seq<byte>, h: nat, at: nat)
    requires h <= at && at + AnimalSize <= |prev| && |prev| == |x| && prev[h..] == x[h..]
    requires |r| == |prev| - AnimalSize && r[at..] == prev[at + AnimalSize..]
    requires forall q :: h <= q < at ==> r[q] == prev[q]
    ensures r[h..] == (x[..at] + x[at + AnimalSize..])[h..]
  {
    var y := x[..at] + x[at + AnimalSize..];
    forall i | h <= i < |r|
      ensures r[i] == y[i]
    {
      if i < at {
        assert prev[h..][i - h] == x[h..][i - h];
      } else {
        assert r[at..][i - at] == prev[at + AnimalSize..][i - at];
        assert prev[h..][i + AnimalSize - h] == x[h..][i + AnimalSize - h];
      }
    }
    assert forall i :: 0 <= i < |r| - h ==> r[h..][i] == y[h..][i];
  }

  /** A fit in a shorter body is a fit in a longer one. */
  lemma {:induction false} CutsFitWiden(os: seq<int>, n: int, m: int)
    requires CutsFit(os, n) && n <= m
    ensures CutsFit(os, m)
  {
  }
}
