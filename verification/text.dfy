/**
 * Text normalisation and content-derived identifiers
 * (`normalize_text` and `make_id` of backend/app/db/seed_schedule.py),
 * plus the code-point string order that Python's `sorted` and SQLite's
 * BINARY collation both use.
 */
module Text {
  import opened Wrappers
  import Order

  type Byte = b: int | 0 <= b < 256

  /** A SHA-1 digest: twenty bytes. */
  type Digest = d: seq<Byte> | |d| == 20 witness seq(20, i => 0)

  /**
   * The two library calls behind normalisation and identifiers, kept opaque:
   * Unicode NFKC (`unicodedata.normalize("NFKC", _)`) and the SHA-1 digest of
   * a text's UTF-8 encoding (`hashlib.sha1(_.encode("utf-8"))`).
   */
  datatype TextOps = TextOps(nfkc: string -> string, sha1: string -> Digest)

  /** The whitespace of Python's `str.strip()` and of `\s` in a `str` regular expression. */
  predicate IsSpace(c: char) {
    || ('\t' <= c <= '\r')
    || ('\U{1C}' <= c <= '\U{1F}')
    || c == ' '
    || c == '\U{85}'
    || c == '\U{A0}'
    || c == '\U{1680}'
    || ('\U{2000}' <= c <= '\U{200A}')
    || c == '\U{2028}'
    || c == '\U{2029}'
    || c == '\U{202F}'
    || c == '\U{205F}'
    || c == '\U{3000}'
  }

  /** `lstrip()`: drops the leading whitespace. */
  function TrimLeft(s: string): string {
    if s != [] && IsSpace(s[0]) then TrimLeft(s[1..]) else s
  }

  /** What is left is a suffix that starts with a non-space, and everything dropped is whitespace. */
  lemma {:induction false} TrimLeftFacts(s: string)
    ensures var r := TrimLeft(s);
            && |r| <= |s| && r == s[|s| - |r|..]
            && (r == [] || !IsSpace(r[0]))
            && forall i :: 0 <= i < |s| - |r| ==> IsSpace(s[i])
  {
    if s != [] && IsSpace(s[0]) {
      TrimLeftFacts(s[1..]);
      assert forall i :: 1 <= i < |s| ==> s[1..][i - 1] == s[i];
    }
  }

  /** `rstrip()`: drops the trailing whitespace. */
  function TrimRight(s: string): string {
    if s != [] && IsSpace(s[|s| - 1]) then TrimRight(s[..|s| - 1]) else s
  }

  /** What is left is a prefix that ends with a non-space, and everything dropped is whitespace. */
  lemma {:induction false} TrimRightFacts(s: string)
    ensures var r := TrimRight(s);
            && |r| <= |s| && r == s[..|r|]
            && (r == [] || !IsSpace(r[|r| - 1]))
            && forall i :: |r| <= i < |s| ==> IsSpace(s[i])
  {
    if s != [] && IsSpace(s[|s| - 1]) {
      TrimRightFacts(s[..|s| - 1]);
    }
  }

  /** `str.strip()`. */
  function Strip(s: string): string {
    TrimRight(TrimLeft(s))
  }

  /** Stripped text neither starts nor ends with whitespace. */
  lemma StripFacts(s: string)
    ensures var r := Strip(s); r == [] || (!IsSpace(r[0]) && !IsSpace(r[|r| - 1]))
  {
    TrimLeftFacts(s);
    TrimRightFacts(TrimLeft(s));
  }

  /** `re.sub(r"\s+", " ", s)`: every maximal run of whitespace becomes one space. */
  function Collapse(s: string): string
    decreases |s|
  {
    if s == [] then []
    else if IsSpace(s[0]) then
      TrimLeftFacts(s);
      " " + Collapse(TrimLeft(s))
    else
      [s[0]] + Collapse(s[1..])
  }

  /** Collapsing keeps emptiness and whitespace at either end. */
  lemma {:induction false} CollapseEnds(s: string)
    ensures var r := Collapse(s);
            && (r == [] <==> s == [])
            && (r != [] ==> (IsSpace(r[0]) <==> IsSpace(s[0])))
            && (r != [] ==> (IsSpace(r[|r| - 1]) <==> IsSpace(s[|s| - 1])))
    decreases |s|
  {
    if s == [] {
    } else if IsSpace(s[0]) {
      var t := TrimLeft(s);
      TrimLeftFacts(s);
      CollapseEnds(t);
      assert t == [] ==> IsSpace(s[|s| - 1]);
      assert t != [] ==> t[|t| - 1] == s[|s| - 1];
    } else {
      CollapseEnds(s[1..]);
    }
  }

  /** Putting `x` in front keeps plain, isolated spaces when `x` is not whitespace or is a space before a non-space. */
  lemma ConsSpaces(x: char, c: string)
    requires !IsSpace(x) || (x == ' ' && (c == [] || !IsSpace(c[0])))
    requires forall i :: 0 <= i < |c| && IsSpace(c[i]) ==> c[i] == ' '
    requires forall i, j :: 0 <= i && j == i + 1 && j < |c| && IsSpace(c[j]) ==> !IsSpace(c[i])
    ensures var r := [x] + c;
            && (forall i :: 0 <= i < |r| && IsSpace(r[i]) ==> r[i] == ' ')
            && (forall i, j :: 0 <= i && j == i + 1 && j < |r| && IsSpace(r[j]) ==> !IsSpace(r[i]))
  {
    var r := [x] + c;
    forall i, j | 0 <= i && j == i + 1 && j < |r| && IsSpace(r[j]) ensures !IsSpace(r[i]) {
      if i > 0 {
        assert r[i] == c[i - 1] && r[j] == c[j - 1];
      }
    }
  }

  /** Collapsed text has only plain spaces as whitespace, and never two in a row. */
  lemma {:induction false} CollapseSpaces(s: string)
    ensures var r := Collapse(s);
            && (forall i :: 0 <= i < |r| && IsSpace(r[i]) ==> r[i] == ' ')
            && (forall i, j :: 0 <= i && j == i + 1 && j < |r| && IsSpace(r[j]) ==> !IsSpace(r[i]))
    decreases |s|
  {
    if s == [] {
    } else if IsSpace(s[0]) {
      var t := TrimLeft(s);
      TrimLeftFacts(s);
      CollapseEnds(t);
      CollapseSpaces(t);
      ConsSpaces(' ', Collapse(t));
    } else {
      CollapseSpaces(s[1..]);
      assert var c := Collapse(s[1..]);
             && (forall i :: 0 <= i < |c| && IsSpace(c[i]) ==> c[i] == ' ')
             && (forall i, j :: 0 <= i && j == i + 1 && j < |c| && IsSpace(c[j]) ==> !IsSpace(c[i]));
      ConsSpaces(s[0], Collapse(s[1..]));
    }
  }

  /**
   * Collapsing keeps emptiness and whitespace at either end, leaves only plain
   * spaces as whitespace, and never two whitespace characters in a row.
   */
  lemma CollapseFacts(s: string)
    ensures var r := Collapse(s);
            && (r == [] <==> s == [])
            && (r != [] ==> (IsSpace(r[0]) <==> IsSpace(s[0])))
            && (r != [] ==> (IsSpace(r[|r| - 1]) <==> IsSpace(s[|s| - 1])))
            && (forall i :: 0 <= i < |r| && IsSpace(r[i]) ==> r[i] == ' ')
            && (forall i, j :: 0 <= i && j == i + 1 && j < |r| && IsSpace(r[j]) ==> !IsSpace(r[i]))
  {
    CollapseEnds(s);
    CollapseSpaces(s);
  }

  /** Text as `normalize_text` leaves it after NFKC. */
  function Squash(s: string): string {
    Collapse(Strip(s))
  }

  lemma SquashSquashed(s: string)
    ensures Squashed(Squash(s))
  {
    StripFacts(s);
    CollapseFacts(Strip(s));
  }

  /**
   * No whitespace at either end, every whitespace character a plain space,
   * and never two whitespace characters in a row.
   */
  ghost predicate Squashed(r: string) {
    && (r == [] || (!IsSpace(r[0]) && !IsSpace(r[|r| - 1])))
    && (forall i :: 0 <= i < |r| && IsSpace(r[i]) ==> r[i] == ' ')
    && (forall i, j :: 0 <= i && j == i + 1 && j < |r| && IsSpace(r[j]) ==> !IsSpace(r[i]))
  }

  lemma {:induction false} CollapseKeeps(s: string)
    requires forall i :: 0 <= i < |s| && IsSpace(s[i]) ==> s[i] == ' '
    requires forall i, j :: 0 <= i && j == i + 1 && j < |s| && IsSpace(s[j]) ==> !IsSpace(s[i])
    ensures Collapse(s) == s
    decreases |s|
  {
    if s == [] {
    } else if IsSpace(s[0]) {
      var t := TrimLeft(s);
      assert t == s[1..] by {
        TrimLeftFacts(s);
        if |s| > 1 { assert !IsSpace(s[1]); }
      }
      CollapseKeeps(s[1..]);
    } else {
      CollapseKeeps(s[1..]);
    }
  }

  /** Squashing is idempotent: squashed text is left exactly as it is. */
  lemma SquashKeeps(r: string)
    requires Squashed(r)
    ensures Squash(r) == r
  {
    assert TrimLeft(r) == r;
    assert TrimRight(r) == r;
    CollapseKeeps(r);
  }

  /**
   * What the model relies on about the opaque NFKC function: the empty text is
   * normal, and text in normal form stays so once its whitespace is squashed
   * (squashing only removes whitespace and turns whitespace into U+0020).
   */
  ghost predicate NfkcLaws(ops: TextOps) {
    && ops.nfkc([]) == []
    && forall t :: ops.nfkc(Squash(ops.nfkc(t))) == Squash(ops.nfkc(t))
  }

  /** `normalize_text(s)`: NFKC, `strip()`, then every whitespace run to one space; `None` reads as "". */
  function NormalizeText(ops: TextOps, s: Option<string>): (r: string)
    ensures Squashed(r)
  {
    SquashSquashed(ops.nfkc(s.GetOr("")));
    Squash(ops.nfkc(s.GetOr("")))
  }

  lemma NormalizeNone(ops: TextOps)
    requires NfkcLaws(ops)
    ensures NormalizeText(ops, None) == "" && NormalizeText(ops, Some("")) == ""
  {
  }

  lemma NormalizeIdempotent(ops: TextOps, s: Option<string>)
    requires NfkcLaws(ops)
    ensures NormalizeText(ops, Some(NormalizeText(ops, s))) == NormalizeText(ops, s)
  {
    var n := NormalizeText(ops, s);
    assert ops.nfkc(n) == n;
    SquashKeeps(n);
  }

  /** The lower-case hexadecimal digit for `v`. */
  function HexDigit(v: int): char
    requires 0 <= v < 16
  {
    if v < 10 then ('0' as int + v) as char else ('a' as int + v - 10) as char
  }

  predicate IsHexChar(c: char) {
    ('0' <= c <= '9') || ('a' <= c <= 'f')
  }

  /** The value of a lower-case hexadecimal digit. */
  function HexValue(c: char): (v: int)
    requires IsHexChar(c)
    ensures 0 <= v < 16 && HexDigit(v) == c
  {
    if c <= '9' then c as int - '0' as int else c as int - 'a' as int + 10
  }

  /** `bytes.hex()` / `hexdigest()`: two lower-case hex digits per byte, high nibble first. */
  function Hex(bytes: seq<Byte>): (r: string)
    ensures |r| == 2 * |bytes|
    ensures forall i :: 0 <= i < |r| ==> IsHexChar(r[i])
  {
    if bytes == [] then []
    else [HexDigit(bytes[0] / 16), HexDigit(bytes[0] % 16)] + Hex(bytes[1..])
  }

  /** The hex text determines the bytes: reading the digit pairs back gives them. */
  lemma {:induction false} HexDecodes(bytes: seq<Byte>, i: nat)
    requires i < |bytes|
    ensures 16 * HexValue(Hex(bytes)[2 * i]) + HexValue(Hex(bytes)[2 * i + 1]) == bytes[i]
  {
    var h := Hex(bytes);
    assert h == [HexDigit(bytes[0] / 16), HexDigit(bytes[0] % 16)] + Hex(bytes[1..]);
    if i > 0 {
      HexDecodes(bytes[1..], i - 1);
      assert h[2 * i] == Hex(bytes[1..])[2 * (i - 1)];
      assert h[2 * i + 1] == Hex(bytes[1..])[2 * (i - 1) + 1];
    }
  }

  function Min(a: int, b: int): int {
    if a <= b then a else b
  }

  /** `hashlib.sha1(normalize_text(seed).encode("utf-8")).hexdigest()`: forty hex digits. */
  function SeedDigest(ops: TextOps, seed: string): (h: string)
    ensures |h| == 40
    ensures forall i :: 0 <= i < |h| ==> IsHexChar(h[i])
  {
    Hex(ops.sha1(NormalizeText(ops, Some(seed))))
  }

  /**
   * `make_id(prefix, seed, n)`: `prefix + "_" + h` where `h` is the first `n`
   * hex digits (all of them when `n` exceeds 40) of the SHA-1 of the normalised seed.
   */
  function MakeId(ops: TextOps, prefix: string, seed: string, n: nat): (r: string)
    ensures |r| == |prefix| + 1 + Min(n, 40)
    ensures r[..|prefix|] == prefix && r[|prefix|] == '_'
    ensures forall i :: |prefix| < i < |r| ==> IsHexChar(r[i])
  {
    var h := SeedDigest(ops, seed);
    var digits := h[..Min(n, 40)];
    var r := prefix + "_" + digits;
    assert forall i :: |prefix| < i < |r| ==> r[i] == digits[i - |prefix| - 1] == h[i - |prefix| - 1];
    r
  }

  /** Seeds that normalise alike get the same identifier. */
  lemma MakeIdSameNormal(ops: TextOps, prefix: string, s1: string, s2: string, n: nat)
    requires NormalizeText(ops, Some(s1)) == NormalizeText(ops, Some(s2))
    ensures MakeId(ops, prefix, s1, n) == MakeId(ops, prefix, s2, n)
  {
  }

  /** Deriving an identifier from an already normalised seed changes nothing. */
  lemma MakeIdOfNormalized(ops: TextOps, prefix: string, seed: string, n: nat)
    requires NfkcLaws(ops)
    ensures MakeId(ops, prefix, NormalizeText(ops, Some(seed)), n) == MakeId(ops, prefix, seed, n)
  {
    NormalizeIdempotent(ops, Some(seed));
  }

  /** Code-point lexicographic order: Python's `<` on `str`, SQLite's BINARY collation on UTF-8. */
  predicate StrLess(a: string, b: string) {
    if a == [] then b != []
    else if b == [] then false
    else if a[0] != b[0] then a[0] < b[0]
    else StrLess(a[1..], b[1..])
  }

  predicate StrLessEq(a: string, b: string) {
    a == b || StrLess(a, b)
  }

  lemma {:induction false} StrLessIrreflexive(a: string)
    ensures !StrLess(a, a)
  {
    if a != [] {
      StrLessIrreflexive(a[1..]);
    }
  }

  lemma {:induction false} StrLessTransitive(a: string, b: string, c: string)
    requires StrLess(a, b) && StrLess(b, c)
    ensures StrLess(a, c)
  {
    if a != [] && b != [] && c != [] && a[0] == b[0] && b[0] == c[0] {
      StrLessTransitive(a[1..], b[1..], c[1..]);
    }
  }

  /** No string sorts before one it is at most. */
  lemma {:induction false} StrLessEqNotGreater(a: string, b: string)
    requires StrLessEq(a, b)
    ensures !StrLess(b, a)
  {
    if a != [] && b != [] && a[0] == b[0] {
      StrLessEqNotGreater(a[1..], b[1..]);
    }
  }

  lemma {:induction false} StrLessTotal(a: string, b: string)
    requires a != b
    ensures StrLess(a, b) || StrLess(b, a)
  {
    if a != [] && b != [] && a[0] == b[0] {
      assert a == [a[0]] + a[1..] && b == [b[0]] + b[1..];
      StrLessTotal(a[1..], b[1..]);
    }
  }

  lemma StrLessStrictTotal()
    ensures Order.StrictTotal(StrLess)
  {
    forall a ensures !StrLess(a, a) {
      StrLessIrreflexive(a);
    }
    forall a, b, c | StrLess(a, b) && StrLess(b, c) ensures StrLess(a, c) {
      StrLessTransitive(a, b, c);
    }
    forall a, b | a != b ensures StrLess(a, b) || StrLess(b, a) {
      StrLessTotal(a, b);
    }
  }

  /** Two blocks of equal length compare first by the blocks, then by what follows. */
  lemma {:induction false} StrLessConcat(x1: string, r1: string, x2: string, r2: string)
    requires |x1| == |x2|
    ensures StrLess(x1 + r1, x2 + r2) <==> StrLess(x1, x2) || (x1 == x2 && StrLess(r1, r2))
  {
    if x1 == [] {
      assert x1 + r1 == r1 && x2 + r2 == r2;
    } else {
      assert (x1 + r1)[1..] == x1[1..] + r1;
      assert (x2 + r2)[1..] == x2[1..] + r2;
      StrLessConcat(x1[1..], r1, x2[1..], r2);
      if x1[0] == x2[0] && x1[1..] == x2[1..] {
        assert x1 == [x1[0]] + x1[1..] && x2 == [x2[0]] + x2[1..];
      }
    }
  }
}
