/**
  Bytes, fixed-width integers and the byte orders the wire formats use:
  big-endian for USB/IP headers, little-endian for USB descriptors.
 */
module Bytes {
  type Byte = x: int | 0 <= x < 0x100
  type U16 = x: int | 0 <= x < 0x1_0000
  type U32 = x: int | 0 <= x < 0x1_0000_0000
  type I32 = x: int | -0x8000_0000 <= x < 0x8000_0000

  datatype Option<+T> = None | Some(value: T)

  // Rust's `status as u32` and `status_val() as i32`.

  function AsU32(x: I32): (r: U32)
    ensures AsI32(r) == x
    ensures r == x || r == x + 0x1_0000_0000
  {
    if x < 0 then x + 0x1_0000_0000 else x
  }

  function AsI32(x: U32): (r: I32) {
    if x < 0x8000_0000 then x else x - 0x1_0000_0000
  }

  function Be16(x: U16): (b: seq<Byte>)
    ensures |b| == 2
  {
    [x / 0x100, x % 0x100]
  }

  function Be32(x: U32): (b: seq<Byte>)
    ensures |b| == 4
  {
    Be16(x / 0x1_0000) + Be16(x % 0x1_0000)
  }

  function Le16(x: U16): (b: seq<Byte>)
    ensures |b| == 2
  {
    [x % 0x100, x / 0x100]
  }

  function Be16At(s: seq<Byte>, i: nat): (x: U16)
    requires i + 2 <= |s|
  {
    var high: int := s[i];
    high * 0x100 + s[i + 1]
  }

  function Be32At(s: seq<Byte>, i: nat): (x: U32)
    requires i + 4 <= |s|
  {
    var high: int := Be16At(s, i);
    high * 0x1_0000 + Be16At(s, i + 2)
  }

  function Le16At(s: seq<Byte>, i: nat): (x: U16)
    requires i + 2 <= |s|
  {
    var high: int := s[i + 1];
    s[i] + high * 0x100
  }

  /** What the readers denote, byte by byte. */
  lemma ByteOrders(s: seq<Byte>, i: nat)
    requires i + 4 <= |s|
    ensures var b0: int, b1: int, b2: int, b3: int := s[i], s[i + 1], s[i + 2], s[i + 3];
            && Be32At(s, i) == 0x100_0000 * b0 + 0x1_0000 * b1 + 0x100 * b2 + b3
            && Be16At(s, i) == 0x100 * b0 + b1
            && Le16At(s, i) == b0 + 0x100 * b1
  {
  }

  lemma Be16RoundTrip(s: seq<Byte>, i: nat, x: U16)
    requires i + 2 <= |s|
    ensures s[i..i + 2] == Be16(x) <==> Be16At(s, i) == x
  {
    assert s[i..i + 2] == [s[i], s[i + 1]];
  }

  lemma Be32RoundTrip(s: seq<Byte>, i: nat, x: U32)
    requires i + 4 <= |s|
    ensures s[i..i + 4] == Be32(x) <==> Be32At(s, i) == x
  {
    Be16RoundTrip(s, i, x / 0x1_0000);
    Be16RoundTrip(s, i + 2, x % 0x1_0000);
    assert s[i..i + 4] == s[i..i + 2] + s[i + 2..i + 4];
    assert s[i..i + 4][..2] == s[i..i + 2] && s[i..i + 4][2..] == s[i + 2..i + 4];
    assert Be32(x)[..2] == Be16(x / 0x1_0000) && Be32(x)[2..] == Be16(x % 0x1_0000);
  }

  /** A row of 32-bit big-endian fields, as in the packed URB structs. */
  function Words(ws: seq<U32>): (b: seq<Byte>)
    ensures |b| == 4 * |ws|
  {
    if ws == [] then [] else Be32(ws[0]) + Words(ws[1..])
  }

  lemma {:induction false} WordsAt(ws: seq<U32>, k: nat)
    requires k < |ws|
    ensures Words(ws)[4 * k..4 * k + 4] == Be32(ws[k])
  {
    if k > 0 {
      WordsAt(ws[1..], k - 1);
      assert Words(ws)[4 * k..4 * k + 4] == Words(ws[1..])[4 * (k - 1)..4 * (k - 1) + 4];
    }
  }

  lemma SliceOfPrefix<T>(s: seq<T>, n: nat, lo: nat, hi: nat)
    requires lo <= hi <= n <= |s|
    ensures s[..n][lo..hi] == s[lo..hi]
  {
  }

  lemma WordsAreRead(s: seq<Byte>, ws: seq<U32>, k: nat)
    requires 4 * |ws| <= |s| && s[..4 * |ws|] == Words(ws) && k < |ws|
    ensures Be32At(s, 4 * k) == ws[k]
  {
    WordsAt(ws, k);
    SliceOfPrefix(s, 4 * |ws|, 4 * k, 4 * k + 4);
    Be32RoundTrip(s, 4 * k, ws[k]);
  }

  lemma {:induction false} ReadAreWords(s: seq<Byte>, ws: seq<U32>)
    requires 4 * |ws| <= |s| && forall k :: 0 <= k < |ws| ==> Be32At(s, 4 * k) == ws[k]
    ensures s[..4 * |ws|] == Words(ws)
  {
    if ws != [] {
      assert Be32At(s, 4 * 0) == ws[0];
      Be32RoundTrip(s, 0, ws[0]);
      forall k | 0 <= k < |ws| - 1 ensures Be32At(s[4..], 4 * k) == ws[1..][k] {
        assert Be32At(s, 4 * (k + 1)) == ws[k + 1];
      }
      ReadAreWords(s[4..], ws[1..]);
      JoinSlices(s, 0, 4, 4 * |ws|);
    }
  }

  /** A prefix of `s` is a row of fields exactly when the fields read from it are that row. */
  lemma WordsRoundTrip(s: seq<Byte>, ws: seq<U32>)
    requires 4 * |ws| <= |s|
    ensures s[..4 * |ws|] == Words(ws) <==> forall k :: 0 <= k < |ws| ==> Be32At(s, 4 * k) == ws[k]
  {
    if s[..4 * |ws|] == Words(ws) {
      forall k | 0 <= k < |ws| ensures Be32At(s, 4 * k) == ws[k] {
        WordsAreRead(s, ws, k);
      }
    } else if forall k :: 0 <= k < |ws| ==> Be32At(s, 4 * k) == ws[k] {
      ReadAreWords(s, ws);
    }
  }

  function Concat(parts: seq<seq<Byte>>): (s: seq<Byte>) {
    if parts == [] then [] else parts[0] + Concat(parts[1..])
  }

  lemma {:induction false} ConcatAppend(xs: seq<seq<Byte>>, ys: seq<seq<Byte>>)
    ensures Concat(xs + ys) == Concat(xs) + Concat(ys)
  {
    if xs == [] {
      assert xs + ys == ys;
    } else {
      var head, rest, all := xs[0], Concat(xs[1..]), xs + ys;
      assert all[0] == head && all[1..] == xs[1..] + ys;
      ConcatAppend(xs[1..], ys);
      Associative(head, rest, Concat(ys));
    }
  }

  lemma SliceOfSlice<T>(s: seq<T>, a: nat, b: nat, i: nat, j: nat)
    requires a <= b <= |s| && i <= j <= b - a
    ensures s[a..b][i..j] == s[a + i..a + j]
  {
    var x, y := s[a..b][i..j], s[a + i..a + j];
    forall k | 0 <= k < j - i ensures x[k] == y[k] {
      assert x[k] == s[a..b][i + k] == s[a + i + k];
    }
  }

  lemma Associative<T>(a: seq<T>, b: seq<T>, c: seq<T>)
    ensures a + (b + c) == a + b + c
  {
  }

  /** Two adjacent slices of a sequence are one slice. */
  lemma JoinSlices<T>(s: seq<T>, lo: nat, mid: nat, hi: nat)
    requires lo <= mid <= hi <= |s|
    ensures s[lo..mid] + s[mid..hi] == s[lo..hi]
    ensures s[mid..][..hi - mid] == s[mid..hi] && s[mid..][hi - mid..] == s[hi..]
  {
  }

  function Map<T, U>(f: T -> U, xs: seq<T>): (ys: seq<U>)
    ensures |ys| == |xs|
    ensures forall i :: 0 <= i < |xs| ==> ys[i] == f(xs[i])
  {
    seq(|xs|, i requires 0 <= i < |xs| => f(xs[i]))
  }

  lemma MapAppend<T, U>(f: T -> U, xs: seq<T>, ys: seq<T>)
    ensures Map(f, xs + ys) == Map(f, xs) + Map(f, ys)
  {
  }

  lemma MapTail<T, U>(f: T -> U, xs: seq<T>)
    requires xs != []
    ensures Map(f, xs)[1..] == Map(f, xs[1..])
  {
  }

  /** The last `n` elements, when one more is appended. */
  lemma SuffixSnoc<T>(a: seq<T>, n: nat, x: T)
    requires n <= |a|
    ensures (a + [x])[|a| - n..] == a[|a| - n..] + [x]
  {
  }

  lemma TakeNext<T>(s: seq<T>, k: nat)
    requires k < |s|
    ensures s[..k + 1] == s[..k] + [s[k]]
  {
  }

  lemma SplitAt<T>(s: seq<T>, n: nat)
    requires n < |s|
    ensures s == s[..n] + s[n..] && s[n..][0] == s[n] && s[n..][1..] == s[n + 1..]
  {
  }

  lemma HeadTail<T>(s: seq<T>)
    requires s != []
    ensures [s[0]] + s[1..] == s
  {
  }

  lemma MoveOne<T>(a: seq<T>, s: seq<T>)
    requires s != []
    ensures a + [s[0]] + s[1..] == a + s
  {
  }

  lemma TakeAll<T>(s: seq<T>)
    ensures s[..|s|] == s
  {
  }

  lemma ConcatOne(x: seq<Byte>)
    ensures Concat([x]) == x
  {
    assert Concat([x]) == x + Concat([]);
  }

  /** A growable buffer that callees extend, rewrite or truncate in place. */
  class ByteVec {
    var data: seq<Byte>

    constructor ()
      ensures data == []
    {
      data := [];
    }

    method Extend(more: seq<Byte>)
      modifies this
      ensures data == old(data) + more
    {
      data := data + more;
    }
  }
}
