/** Fixed-width integers as bytes, least or most significant byte first. */
module Bytes {
  type byte = x: nat | x < 256

  type Data = seq<byte>

  datatype Option<T> = None | Some(value: T)

  datatype Result<T> = Ok(value: T) | Err {
    predicate IsFailure() { Err? }

    function PropagateFailure<U>(): Result<U>
      requires IsFailure()
    {
      Err
    }

    function Extract(): T
      requires !IsFailure()
    {
      value
    }
  }

  function Pow256(width: nat): (p: nat)
    ensures p >= 1
  {
    if width == 0 then 1 else 256 * Pow256(width - 1)
  }

  lemma PowersOf256()
    ensures Pow256(1) == 0x100 && Pow256(2) == 0x1_0000 && Pow256(4) == 0x1_0000_0000
    ensures Pow256(8) == 0x1_0000_0000_0000_0000
  {
    assert Pow256(3) == 0x100_0000;
    assert Pow256(5) == 0x100 * Pow256(4);
    assert Pow256(6) == 0x100 * Pow256(5);
    assert Pow256(7) == 0x100 * Pow256(6);
  }

  /** The `width` low bytes of n, least significant first. */
  function LE(n: nat, width: nat): (s: Data)
    ensures |s| == width
  {
    if width == 0 then [] else [n % 256] + LE(n / 256, width - 1)
  }

  function FromLE(s: Data): nat {
    if s == [] then 0 else s[0] + 256 * FromLE(s[1..])
  }

  lemma {:induction false} FromLEBound(s: Data)
    ensures FromLE(s) < Pow256(|s|)
    decreases |s|
  {
    if s != [] {
      FromLEBound(s[1..]);
    }
  }

  lemma {:induction false} LERoundTrip(n: nat, width: nat)
    requires n < Pow256(width)
    ensures FromLE(LE(n, width)) == n
    decreases width
  {
    if width > 0 {
      LERoundTrip(n / 256, width - 1);
      assert LE(n, width)[1..] == LE(n / 256, width - 1);
    }
  }

  lemma {:induction false} FromLERoundTrip(s: Data)
    ensures LE(FromLE(s), |s|) == s
    decreases |s|
  {
    if s != [] {
      FromLERoundTrip(s[1..]);
      assert FromLE(s) % 256 == s[0] && FromLE(s) / 256 == FromLE(s[1..]);
    }
  }

  lemma Regroup(a: Data, b: Data, c: Data)
    ensures (a + b) + c == a + (b + c)
  {
  }

  /** The integer stored at an offset; nothing when it would run past the end. */
  function ReadAt(data: Data, offset: nat, width: nat): Option<nat> {
    if offset + width <= |data| then Some(FromLE(data[offset..offset + width])) else None
  }

  /** The data has this piece at this offset. */
  predicate Holds(data: Data, offset: nat, piece: Data) {
    offset + |piece| <= |data| && forall i | 0 <= i < |piece| :: data[offset + i] == piece[i]
  }

  lemma HoldsSlice(data: Data, offset: nat, piece: Data)
    requires offset + |piece| <= |data|
    ensures Holds(data, offset, piece) <==> data[offset..offset + |piece|] == piece
  {
    var slice := data[offset..offset + |piece|];
    assert forall i | 0 <= i < |piece| :: slice[i] == data[offset + i];
  }

  lemma HoldsParts(data: Data, offset: nat, a: Data, b: Data)
    requires Holds(data, offset, a + b)
    ensures Holds(data, offset, a) && Holds(data, offset + |a|, b)
  {
    forall i | 0 <= i < |a|
      ensures data[offset + i] == a[i]
    {
      assert (a + b)[i] == a[i];
    }
    forall i | 0 <= i < |b|
      ensures data[offset + |a| + i] == b[i]
    {
      assert (a + b)[|a| + i] == b[i];
    }
  }

  lemma HoldsJoined(data: Data, offset: nat, a: Data, b: Data)
    requires Holds(data, offset, a) && Holds(data, offset + |a|, b)
    ensures Holds(data, offset, a + b)
  {
    forall i | 0 <= i < |a + b|
      ensures data[offset + i] == (a + b)[i]
    {
      assert (a + b)[i] == if i < |a| then a[i] else b[i - |a|];
    }
  }

  lemma HoldsRead(data: Data, offset: nat, n: nat, width: nat)
    requires Holds(data, offset, LE(n, width)) && n < Pow256(width)
    ensures ReadAt(data, offset, width) == Some(n)
  {
    HoldsSlice(data, offset, LE(n, width));
    ReadSlice(data, offset, LE(n, width));
    LERoundTrip(n, width);
  }

  lemma ReadSlice(data: Data, offset: nat, piece: Data)
    requires offset + |piece| <= |data| && data[offset..offset + |piece|] == piece
    ensures ReadAt(data, offset, |piece|) == Some(FromLE(piece))
  {
  }

  /** Reads the first field of a piece and passes to the rest. */
  lemma TakeField(data: Data, offset: nat, n: nat, width: nat, rest: Data)
    requires Holds(data, offset, LE(n, width) + rest) && n < Pow256(width)
    ensures ReadAt(data, offset, width) == Some(n)
    ensures Holds(data, offset + width, rest)
  {
    HoldsParts(data, offset, LE(n, width), rest);
    HoldsRead(data, offset, n, width);
  }

  // ---- Most significant byte first ----

  function BE(n: nat, width: nat): (s: Data)
    ensures |s| == width
  {
    if width == 0 then [] else BE(n / 256, width - 1) + [n % 256]
  }

  function FromBE(s: Data): nat {
    if s == [] then 0 else 256 * FromBE(s[..|s| - 1]) + s[|s| - 1]
  }

  lemma {:induction false} FromBEBound(s: Data)
    ensures FromBE(s) < Pow256(|s|)
    decreases |s|
  {
    if s != [] {
      FromBEBound(s[..|s| - 1]);
    }
  }

  lemma {:induction false} BERoundTrip(n: nat, width: nat)
    requires n < Pow256(width)
    ensures FromBE(BE(n, width)) == n
    decreases width
  {
    if width > 0 {
      BERoundTrip(n / 256, width - 1);
      assert BE(n, width)[..width - 1] == BE(n / 256, width - 1);
    }
  }

  lemma {:induction false} FromBERoundTrip(s: Data)
    ensures BE(FromBE(s), |s|) == s
    decreases |s|
  {
    if s != [] {
      var init := s[..|s| - 1];
      FromBERoundTrip(init);
      assert FromBE(s) == 256 * FromBE(init) + s[|s| - 1];
      assert s == init + [s[|s| - 1]];
    }
  }

  /** Byte-by-byte order of strings of one length. */
  predicate LexLess(a: Data, b: Data)
    requires |a| == |b|
  {
    a != [] && (a[0] < b[0] || (a[0] == b[0] && LexLess(a[1..], b[1..])))
  }

  /** A common prefix does not matter, and a difference in the first part decides. */
  lemma {:induction false} LexConcat(a: Data, b: Data, x: Data, y: Data)
    requires |a| == |b| && |x| == |y|
    ensures LexLess(a + x, b + y) <==> LexLess(a, b) || (a == b && LexLess(x, y))
    decreases |a|
  {
    if a == [] {
      assert a + x == x && b + y == y;
    } else {
      assert (a + x)[1..] == a[1..] + x && (b + y)[1..] == b[1..] + y;
      LexConcat(a[1..], b[1..], x, y);
      assert a == b <==> a[0] == b[0] && a[1..] == b[1..] by {
        assert a == [a[0]] + a[1..] && b == [b[0]] + b[1..];
      }
    }
  }

  /** Big-endian order is numeric order. */
  lemma {:induction false} BEOrder(m: nat, n: nat, width: nat)
    requires m < Pow256(width) && n < Pow256(width)
    ensures LexLess(BE(m, width), BE(n, width)) <==> m < n
    ensures BE(m, width) == BE(n, width) <==> m == n
    decreases width
  {
    BERoundTrip(m, width);
    BERoundTrip(n, width);
    if width > 0 {
      BEOrder(m / 256, n / 256, width - 1);
      LexConcat(BE(m / 256, width - 1), BE(n / 256, width - 1), [m % 256], [n % 256]);
    }
  }
}
