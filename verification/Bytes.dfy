/** Bytes, little-endian words and the small sequence operations shared by the whole model. */
module Bytes {

  newtype byte = b: int | 0 <= b < 256

  datatype Option<+T> = None | Some(value: T)

  const NUL: byte := 0

  /** The chunks laid end to end. */
  function Flatten<T>(chunks: seq<seq<T>>): (r: seq<T>)
  {
    if chunks == [] then [] else Flatten(chunks[..|chunks| - 1]) + chunks[|chunks| - 1]
  }

  lemma {:induction false} FlattenAppend<T>(a: seq<seq<T>>, b: seq<seq<T>>)
    ensures Flatten(a + b) == Flatten(a) + Flatten(b)
    decreases |b|
  {
    if b == [] {
      assert a + b == a;
    } else {
      var last := |b| - 1;
      assert (a + b)[..|a + b| - 1] == a + b[..last];
      assert (a + b)[|a + b| - 1] == b[last];
      FlattenAppend(a, b[..last]);
      Associative(Flatten(a), Flatten(b[..last]), b[last]);
    }
  }

  lemma FlattenOne<T>(chunk: seq<T>)
    ensures Flatten([chunk]) == chunk
  {
    assert [chunk][..0] == [];
  }

  /** Memory with `out` stored at `at`. */
  function Overwrite<T>(memory: seq<T>, at: nat, out: seq<T>): (r: seq<T>)
    requires at + |out| <= |memory|
    ensures |r| == |memory|
  {
    memory[..at] + out + memory[at + |out|..]
  }

  /** A store changes the bytes stored to and no others. */
  lemma OverwriteFrames<T>(memory: seq<T>, at: nat, out: seq<T>, from: nat, to: nat)
    requires at + |out| <= |memory| && from <= to <= |memory|
    ensures Overwrite(memory, at, out)[at..at + |out|] == out
    ensures to <= at || at + |out| <= from ==> Overwrite(memory, at, out)[from..to] == memory[from..to]
  {
  }

  lemma TwoStores<T>(memory: seq<T>, a: nat, x: seq<T>, b: nat, y: seq<T>)
    requires a + |x| <= b && b + |y| <= |memory|
    ensures Overwrite(Overwrite(memory, a, x), b, y)[..b + |y|] == memory[..a] + x + memory[a + |x|..b] + y
  {
  }

  lemma SliceOfSlice<T>(s: seq<T>, a: nat, b: nat, c: nat, d: nat)
    requires a <= b <= |s| && c <= d <= b - a
    ensures s[a..b][c..d] == s[a + c..a + d]
  {
    forall k | 0 <= k < d - c ensures s[a..b][c..d][k] == s[a + c..a + d][k] {
    }
  }

  lemma SliceOfRest<T>(s: seq<T>, a: nat, c: nat, d: nat)
    requires a <= |s| && c <= d <= |s| - a
    ensures s[a..][c..d] == s[a + c..a + d]
  {
    assert s[a..] == s[a..|s|];
    SliceOfSlice(s, a, |s|, c, d);
  }

  lemma Ends<T>(a: seq<T>, b: seq<T>, c: seq<T>)
    ensures (a + b + c)[..|a|] == a && (a + b + c)[|a| + |b|..] == c
  {
  }

  lemma TakeUpdated<T>(s: seq<T>, n: nat, e: T)
    requires n < |s|
    ensures s[n := e][..n + 1] == s[..n] + [e]
  {
  }

  lemma Associative<T>(a: seq<T>, b: seq<T>, c: seq<T>)
    ensures (a + b) + c == a + (b + c)
  {
  }

  /** A C string: what is stored before its terminator holds no NUL. */
  predicate IsCString(s: seq<byte>)
  {
    NUL !in s
  }

  /** The bytes from the start up to the first NUL. */
  function CString(s: seq<byte>): (r: Option<seq<byte>>)
    ensures NUL in s <==> r.Some?
    ensures r.Some? ==> IsCString(r.value) && |r.value| < |s| && s[|r.value|] == NUL && r.value == s[..|r.value|]
  {
    if s == [] then None
    else if s[0] == NUL then Some([])
    else
      var rest := CString(s[1..]);
      if rest.None? then None else Some([s[0]] + rest.value)
  }

  lemma {:induction false} CStringOf(s: seq<byte>, name: seq<byte>)
    requires IsCString(name) && |name| < |s| && name == s[..|name|] && s[|name|] == NUL
    ensures CString(s) == Some(name)
  {
    if name != [] {
      assert s[0] == name[0] && s[0] in name;
      assert s[1..][..|name| - 1] == name[1..];
      CStringOf(s[1..], name[1..]);
    }
  }

  /** An unsigned value stored in 32 bits, least significant byte first. */
  function Le32(x: nat): (r: seq<byte>)
    ensures |r| == 4
  {
    var a := x / 256;
    var b := a / 256;
    var c := b / 256;
    [(x % 256) as byte, (a % 256) as byte, (b % 256) as byte, (c % 256) as byte]
  }

  function FromLe32(s: seq<byte>): (x: nat)
    requires |s| == 4
    ensures x < 0x1_0000_0000
  {
    s[0] as int + 256 * (s[1] as int + 256 * (s[2] as int + 256 * (s[3] as int)))
  }

  /** A stored word reads back as the value modulo 2^32. */
  lemma Le32RoundTrip(x: nat)
    ensures FromLe32(Le32(x)) == x % 0x1_0000_0000
  {
    var a := x / 256;
    var b := a / 256;
    var c := b / 256;
    var r := FromLe32(Le32(x));
    assert r == x % 256 + 256 * (a % 256 + 256 * (b % 256 + 256 * (c % 256)));
    assert x == r + 0x1_0000_0000 * (c / 256);
    ModuloUnique(x, 0x1_0000_0000, c / 256, r);
  }

  /** Bitwise AND of two unsigned values. */
  function And(x: nat, y: nat): (r: nat)
  {
    if x == 0 || y == 0 then 0 else 2 * And(x / 2, y / 2) + (x % 2) * (y % 2)
  }

  function Pow2(k: nat): (r: nat)
    ensures r > 0
  {
    if k == 0 then 1 else 2 * Pow2(k - 1)
  }

  lemma AndOdd(x: nat, h: nat)
    requires h > 0
    ensures And(x, 2 * h - 1) == 2 * And(x / 2, h - 1) + x % 2
  {
    assert (2 * h - 1) / 2 == h - 1 && (2 * h - 1) % 2 == 1;
  }

  /** Masking with 2^k - 1 is reduction modulo 2^k. */
  lemma {:induction false} MaskIsModulo(x: nat, k: nat)
    ensures And(x, Pow2(k) - 1) == x % Pow2(k)
  {
    if k > 0 {
      hide And;
      AndOdd(x, Pow2(k - 1));
      MaskIsModulo(x / 2, k - 1);
      HalveModulo(x, Pow2(k - 1));
    }
  }

  lemma HalveModulo(x: nat, h: nat)
    requires h > 0
    ensures x % (2 * h) == 2 * (x / 2 % h) + x % 2
  {
    var q, r := x / 2 / h, x / 2 % h;
    assert x / 2 == q * h + r;
    assert x == 2 * (x / 2) + x % 2;
    assert x == q * (2 * h) + (2 * r + x % 2) by {
      assert 2 * (q * h) == q * (2 * h);
    }
    ModuloUnique(x, 2 * h, q, 2 * r + x % 2);
  }

  lemma ModuloUnique(x: int, m: nat, q: int, r: nat)
    requires r < m && x == q * m + r
    ensures x / m == q && x % m == r
  {
    var d := x / m - q;
    assert d * m == r - x % m by {
      assert d * m == (x / m) * m - q * m;
    }
    Scale(d, m);
  }

  lemma Scale(d: int, m: nat)
    ensures d >= 1 ==> d * m >= m
    ensures d <= -1 ==> d * m + m <= 0
  {
    assert d * m == (d - 1) * m + m && d * m == (d + 1) * m - m;
    if d >= 1 {
      assert (d - 1) * m >= 0;
    } else if d <= -1 {
      assert (-d - 1) * m >= 0;
    }
  }
}
