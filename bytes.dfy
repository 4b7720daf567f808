/** Machine integers, byte strings, Rust's ordering on `Vec<u8>` and the
    little-endian layout that `bytemuck::bytes_of` produces on the targets
    this tool runs on. */
module Bytes {

  newtype u8 = x: int | 0 <= x < 0x100

  const U32_LIMIT: nat := 0x1_0000_0000
  const U64_LIMIT: nat := 0x1_0000_0000_0000_0000

  type u32 = x: int | 0 <= x < 0x1_0000_0000
  type u64 = x: int | 0 <= x < 0x1_0000_0000_0000_0000
  type i32 = x: int | -0x8000_0000 <= x < 0x8000_0000
  type i64 = x: int | -0x8000_0000_0000_0000 <= x < 0x8000_0000_0000_0000

  /** `data[at..at + |part|] == part`, stated byte by byte. */
  predicate SliceIs(data: seq<u8>, at: nat, part: seq<u8>)
  {
    at + |part| <= |data| && forall j :: 0 <= j < |part| ==> data[at + j] == part[j]
  }

  /** `SliceIs` is exactly equality of the slice. */
  lemma SliceIsSlice(data: seq<u8>, at: nat, part: seq<u8>)
    ensures SliceIs(data, at, part) <==> at + |part| <= |data| && data[at..at + |part|] == part
  {
    if at + |part| <= |data| && data[at..at + |part|] == part {
      forall j | 0 <= j < |part|
        ensures data[at + j] == part[j]
      {
        assert data[at..at + |part|][j] == data[at + j];
      }
    }
  }

  // ---------------------------------------------------------------------
  // Lexicographic order on byte vectors (Rust's `PartialOrd for Vec<u8>`):
  // the first differing byte decides; a proper prefix is smaller.
  // ---------------------------------------------------------------------

  predicate LexLess(a: seq<u8>, b: seq<u8>)
  {
    if |a| == 0 then |b| > 0
    else if |b| == 0 then false
    else a[0] < b[0] || (a[0] == b[0] && LexLess(a[1..], b[1..]))
  }

  /** No byte vector is smaller than itself. */
  lemma {:induction false} LexLessIrreflexive(a: seq<u8>)
    ensures !LexLess(a, a)
  {
    if |a| > 0 {
      LexLessIrreflexive(a[1..]);
    }
  }

  /** Any two byte vectors are equal or ordered one way, and never both ways. */
  lemma {:induction false} LexLessTrichotomy(a: seq<u8>, b: seq<u8>)
    ensures a == b || LexLess(a, b) || LexLess(b, a)
    ensures !(LexLess(a, b) && LexLess(b, a))
    ensures a == b ==> !LexLess(a, b)
  {
    if a == b {
      LexLessIrreflexive(a);
    } else if |a| > 0 && |b| > 0 {
      LexLessTrichotomy(a[1..], b[1..]);
    }
  }

  lemma {:induction false} LexLessTransitive(a: seq<u8>, b: seq<u8>, c: seq<u8>)
    requires LexLess(a, b) && LexLess(b, c)
    ensures LexLess(a, c)
  {
    if |a| > 0 && |b| > 0 && |c| > 0 && a[0] == b[0] == c[0] {
      LexLessTransitive(a[1..], b[1..], c[1..]);
    }
  }

  /** For vectors of one length the order is decided by the first byte at
      which they differ: the reference definition of the comparison. */
  lemma {:induction false} LexLessFirstDifference(a: seq<u8>, b: seq<u8>)
    requires |a| == |b|
    ensures LexLess(a, b) <==>
      exists i :: 0 <= i < |a| && a[..i] == b[..i] && a[i] < b[i]
  {
    if |a| > 0 {
      LexLessFirstDifference(a[1..], b[1..]);
      if LexLess(a, b) {
        if a[0] < b[0] {
          assert a[..0] == b[..0];
        } else {
          var j :| 0 <= j < |a| - 1 && a[1..][..j] == b[1..][..j] && a[1..][j] < b[1..][j];
          assert a[..j + 1] == [a[0]] + a[1..][..j];
          assert b[..j + 1] == [b[0]] + b[1..][..j];
        }
      }
      if exists i :: 0 <= i < |a| && a[..i] == b[..i] && a[i] < b[i] {
        var i :| 0 <= i < |a| && a[..i] == b[..i] && a[i] < b[i];
        if i > 0 {
          assert a[0] == a[..i][0] == b[..i][0] == b[0];
          assert a[1..][..i - 1] == a[..i][1..] == b[..i][1..] == b[1..][..i - 1];
          assert a[1..][i - 1] < b[1..][i - 1];
        }
      }
    }
  }

  // ---------------------------------------------------------------------
  // Little-endian layout of fixed-width integers
  // ---------------------------------------------------------------------

  function Pow256(width: nat): (p: nat)
    ensures p > 0
  {
    if width == 0 then 1 else 256 * Pow256(width - 1)
  }

  lemma Pow256Widths()
    ensures Pow256(4) == U32_LIMIT && Pow256(8) == U64_LIMIT
  {
    assert Pow256(2) == 0x1_0000;
    assert Pow256(4) == 0x1_0000_0000 by {
      assert Pow256(3) == 0x100_0000;
    }
    assert Pow256(6) == 0x1_0000_0000_0000 by {
      assert Pow256(5) == 0x100_0000_0000;
    }
    assert Pow256(7) == 0x100_0000_0000_0000;
  }

  /** The `width` low-order bytes of `n`, least significant first. */
  function LittleEndian(n: nat, width: nat): (r: seq<u8>)
    ensures |r| == width
  {
    if width == 0 then [] else [(n % 256) as u8] + LittleEndian(n / 256, width - 1)
  }

  /** The number whose little-endian layout is `s`. */
  function FromLittleEndian(s: seq<u8>): (n: nat)
    ensures n < Pow256(|s|)
  {
    if s == [] then 0 else s[0] as nat + 256 * FromLittleEndian(s[1..])
  }

  lemma ModOfShifted(n: nat, p: nat)
    requires p > 0
    ensures n % (256 * p) == n % 256 + 256 * ((n / 256) % p)
  {
    var q, r := n / 256, n % 256;
    var s, t := q / p, q % p;
    assert n == 256 * q + r;
    assert q == p * s + t;
    assert n == (256 * p) * s + (256 * t + r) by {
      calc {
        n;
        256 * (p * s + t) + r;
        { assert 256 * (p * s) == (256 * p) * s; }
        (256 * p) * s + (256 * t + r);
      }
    }
    assert 0 <= 256 * t + r < 256 * p;
    DivModUnique(n, 256 * p, s, 256 * t + r);
  }

  lemma DivModUnique(n: nat, d: nat, q: nat, r: nat)
    requires d > 0 && n == d * q + r && r < d
    ensures n % d == r && n / d == q
  {
    var q', r' := n / d, n % d;
    assert d * q' + r' == d * q + r;
    if q' < q {
      MulLe(d, q' + 1, q);
    } else if q' > q {
      MulLe(d, q + 1, q');
    }
  }

  lemma MulLe(d: nat, x: nat, y: nat)
    requires x <= y
    ensures d * x <= d * y
  {
    assert d * y == d * x + d * (y - x);
  }

  /** Decoding the layout of `n` gives `n` reduced to `width` bytes. */
  lemma {:induction false} FromLittleEndianOfLittleEndian(n: nat, width: nat)
    ensures FromLittleEndian(LittleEndian(n, width)) == n % Pow256(width)
  {
    if width > 0 {
      var s := LittleEndian(n, width);
      assert s[1..] == LittleEndian(n / 256, width - 1);
      FromLittleEndianOfLittleEndian(n / 256, width - 1);
      ModOfShifted(n, Pow256(width - 1));
    }
  }

  /** Encoding the value of a byte string gives the byte string back. */
  lemma {:induction false} LittleEndianOfFromLittleEndian(s: seq<u8>)
    ensures LittleEndian(FromLittleEndian(s), |s|) == s
  {
    if s != [] {
      var rest := FromLittleEndian(s[1..]);
      var n := s[0] as nat + 256 * rest;
      DivModUnique(n, 256, rest, s[0] as nat);
      LittleEndianOfFromLittleEndian(s[1..]);
      assert LittleEndian(n, |s|) == [s[0]] + s[1..];
    }
  }
}
