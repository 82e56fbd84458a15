/** Package names: byte strings without a terminator, compared and hashed as the C library and `sdbm` do. */
module Names {

  const WORD: nat := 0x1_0000_0000
  const BASE: nat := 65599

  /** What a byte of a string promotes to: char is signed on some platforms and unsigned on others. */
  function Promote(c: char, signed: bool): int
  {
    var b := c as int % 256;
    if signed && b >= 128 then b - 256 else b
  }

  /** Unsigned 32-bit left shift. */
  function ShiftLeft(x: nat, k: nat): nat
  {
    x * Pow(2, k) % WORD
  }

  function Pow(b: nat, e: nat): nat
  {
    if e == 0 then 1 else b * Pow(b, e - 1)
  }

  /** The string read as a number in base 65599, with no bound on its size. */
  function Poly(s: string, signed: bool): int
  {
    if s == [] then 0 else Poly(s[..|s| - 1], signed) * BASE + Promote(s[|s| - 1], signed)
  }

  /** The hash of a name. */
  function Hash(s: string, signed: bool): nat
  {
    Poly(s, signed) % WORD
  }

  lemma ShiftFormIsMultiplication(h: nat, c: int)
    ensures (c + ShiftLeft(h, 6) + ShiftLeft(h, 16) - h) % WORD == (h * BASE + c) % WORD
  {
    assert Pow(2, 6) == 64 by {
      assert Pow(2, 3) == 8;
    }
    assert Pow(2, 16) == 65536 by {
      assert Pow(2, 3) == 8;
      assert Pow(2, 6) == 64;
      assert Pow(2, 9) == 512;
      assert Pow(2, 12) == 4096;
      assert Pow(2, 15) == 32768;
    }
    assert h * 64 == WORD * (h * 64 / WORD) + h * 64 % WORD;
    assert h * 65536 == WORD * (h * 65536 / WORD) + h * 65536 % WORD;
    var q := h * 64 / WORD + h * 65536 / WORD;
    assert h * BASE + c == (c + ShiftLeft(h, 6) + ShiftLeft(h, 16) - h) + q * WORD;
    ModMultiple(c + ShiftLeft(h, 6) + ShiftLeft(h, 16) - h, q);
  }

  lemma ModMultiple(x: int, q: int)
    ensures (x + q * WORD) % WORD == x % WORD
  {
  }

  lemma Rearrange(q: int, r: int, m: int, c: int)
    ensures (q * WORD + r) * m + c == (r * m + c) + (q * m) * WORD
  {
    assert (q * WORD + r) * m == q * WORD * m + r * m;
    assert q * WORD * m == (q * m) * WORD;
  }

  lemma ModScale(x: int, m: int, c: int)
    ensures (x % WORD * m + c) % WORD == (x * m + c) % WORD
  {
    var q, r := x / WORD, x % WORD;
    assert x == q * WORD + r;
    Rearrange(q, r, m, c);
    ModMultiple(r * m + c, q * m);
  }

  lemma ModAddend(x: int, y: int)
    ensures (x + y % WORD) % WORD == (x + y) % WORD
  {
    ModMultiple(x + y % WORD, y / WORD);
    assert y == y % WORD + y / WORD * WORD;
  }

  lemma ModAffine(x: int, m: int, y: int)
    ensures (x % WORD * m + y % WORD) % WORD == (x * m + y) % WORD
  {
    var r := x % WORD * m;
    ModScale(x, m, y);
    ModAddend(r, y);
  }

  method Sdbm(str: string, signed: bool) returns (hash: nat)
    ensures hash == Hash(str, signed) == Poly(str, signed) % 0x1_0000_0000
  {
    hash := 0;
    var i := 0;
    while i < |str|
      invariant 0 <= i <= |str|
      invariant hash == Hash(str[..i], signed)
    {
      var c := Promote(str[i], signed);
      ShiftFormIsMultiplication(hash, c);
      ModScale(Poly(str[..i], signed), BASE, c);
      assert str[..i + 1][..i] == str[..i];
      hash := (c + ShiftLeft(hash, 6) + ShiftLeft(hash, 16) - hash) % WORD;
      i := i + 1;
    }
    assert str[..i] == str;
  }

  /** With the law of concatenation this determines the number of every string. */
  lemma PolyOfByte(c: char, signed: bool)
    ensures Poly([], signed) == 0
    ensures c as int < 128 ==> Poly([c], signed) == c as int
    ensures 128 <= c as int < 256 ==> Poly([c], signed) == if signed then c as int - 256 else c as int
  {
    assert [c][..0] == [];
  }

  lemma Distribute(x: int, p: int, y: int, c: int)
    ensures (x * p + y) * BASE + c == x * (BASE * p) + (y * BASE + c)
  {
    assert (x * p) * BASE == x * (BASE * p);
  }

  lemma {:induction false} PolyConcat(a: string, b: string, signed: bool)
    ensures Poly(a + b, signed) == Poly(a, signed) * Pow(BASE, |b|) + Poly(b, signed)
  {
    if b == [] {
      assert a + b == a;
    } else {
      var b' := b[..|b| - 1];
      assert (a + b)[..|a + b| - 1] == a + b';
      PolyConcat(a, b', signed);
      Distribute(Poly(a, signed), Pow(BASE, |b'|), Poly(b', signed), Promote(b[|b| - 1], signed));
    }
  }

  /** The hash of a concatenation follows from the hashes of its parts. */
  lemma HashConcat(a: string, b: string, signed: bool)
    ensures Hash(a + b, signed) == (Hash(a, signed) * Pow(BASE, |b|) + Hash(b, signed)) % WORD
  {
    hide Poly, Pow;
    var x, m, y := Poly(a, signed), Pow(BASE, |b|), Poly(b, signed);
    PolyConcat(a, b, signed);
    ModAffine(x, m, y);
  }

  /** Three-way comparison: the sign is that of the first differing byte, a proper prefix is smaller. */
  function Compare(a: string, b: string): int
  {
    if a == [] || b == [] then |a| - |b|
    else if a[0] != b[0] then a[0] as int - b[0] as int
    else Compare(a[1..], b[1..])
  }

  lemma {:induction false} CompareSigns(a: string, b: string)
    ensures Compare(a, b) == 0 <==> a == b
    ensures Compare(a, b) < 0 <==> Compare(b, a) > 0
  {
    if a != [] && b != [] && a[0] == b[0] {
      CompareSigns(a[1..], b[1..]);
      assert a == [a[0]] + a[1..] && b == [b[0]] + b[1..];
    }
  }

  lemma {:induction false} CompareTransitive(a: string, b: string, c: string)
    requires Compare(a, b) < 0 && Compare(b, c) < 0
    ensures Compare(a, c) < 0
  {
    if a != [] && b != [] && c != [] && a[0] == b[0] == c[0] {
      CompareTransitive(a[1..], b[1..], c[1..]);
    }
  }

  /** a comes before b in the order of the C library: it is a proper prefix of b, or has the smaller byte
      where the two first differ. */
  ghost predicate Precedes(a: string, b: string)
  {
    || (|a| < |b| && forall j :: 0 <= j < |a| ==> a[j] == b[j])
    || exists k :: 0 <= k < |a| && k < |b| && a[k] < b[k] && forall j :: 0 <= j < k ==> a[j] == b[j]
  }

  lemma {:induction false} CompareOrders(a: string, b: string)
    ensures Compare(a, b) < 0 <==> Precedes(a, b)
  {
    if a != [] && b != [] && a[0] == b[0] {
      CompareOrders(a[1..], b[1..]);
      PrecedesTail(a, b);
    }
  }

  lemma PrecedesTail(a: string, b: string)
    requires a != [] && b != [] && a[0] == b[0]
    ensures Precedes(a, b) <==> Precedes(a[1..], b[1..])
  {
    var a', b' := a[1..], b[1..];
    if k :| 0 <= k < |a| && k < |b| && a[k] < b[k] && forall j :: 0 <= j < k ==> a[j] == b[j] {
      assert a'[k - 1] < b'[k - 1];
    }
    if k :| 0 <= k < |a'| && k < |b'| && a'[k] < b'[k] && forall j :: 0 <= j < k ==> a'[j] == b'[j] {
      assert a[k + 1] < b[k + 1];
      forall j | 0 <= j < k + 1
        ensures a[j] == b[j]
      {
        assert j > 0 ==> a'[j - 1] == b'[j - 1];
      }
    }
    if |a'| < |b'| && forall j :: 0 <= j < |a'| ==> a'[j] == b'[j] {
      forall j | 0 <= j < |a|
        ensures a[j] == b[j]
      {
        assert j > 0 ==> a'[j - 1] == b'[j - 1];
      }
    }
  }
}
