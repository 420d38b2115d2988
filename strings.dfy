/** The JavaScript string and number behaviour the ledger relies on:
    `String(n)` for the numbers it concatenates into digests, `toLowerCase`
    and `includes` for the searches, and hex encoding for certificate ids.
    Case mapping is ASCII only. */
module Strings {

  /** A byte, as `crypto.randomBytes` yields them. */
  type Byte = b: int | 0 <= b < 256

  function DigitChar(d: nat): char
    requires d < 10
  {
    ('0' as int + d) as char
  }

  /** `String(n)` for a non-negative integer: its decimal digits, without
      leading zeros. */
  function DecimalString(n: nat): (s: string)
    ensures 1 <= |s|
    ensures |s| == 1 <==> n < 10
    ensures forall i :: 0 <= i < |s| ==> '0' <= s[i] <= '9'
    decreases n
  {
    if n < 10 then [DigitChar(n)] else DecimalString(n / 10) + [DigitChar(n % 10)]
  }

  /** Different numbers print differently, so a number concatenated into a
      digest input cannot be altered without altering the string. */
  lemma {:induction false} DecimalStringInjective(m: nat, n: nat)
    requires DecimalString(m) == DecimalString(n)
    ensures m == n
    decreases m
  {
    var sm, sn := DecimalString(m), DecimalString(n);
    if m < 10 || n < 10 {
      assert |sm| == 1 && |sn| == 1;
      assert sm[0] == DigitChar(m) && sn[0] == DigitChar(n);
    } else {
      assert sm == DecimalString(m / 10) + [DigitChar(m % 10)];
      assert sn == DecimalString(n / 10) + [DigitChar(n % 10)];
      assert sm[|sm| - 1] == DigitChar(m % 10) && sn[|sn| - 1] == DigitChar(n % 10);
      assert sm[..|sm| - 1] == DecimalString(m / 10);
      assert sn[..|sn| - 1] == DecimalString(n / 10);
      DecimalStringInjective(m / 10, n / 10);
    }
  }

  function LowerChar(c: char): char
  {
    if 'A' <= c <= 'Z' then (c as int + 32) as char else c
  }

  function UpperChar(c: char): char
  {
    if 'a' <= c <= 'z' then (c as int - 32) as char else c
  }

  /** `s.toLowerCase()`, ASCII letters only. */
  function ToLowerCase(s: string): string
  {
    seq(|s|, i requires 0 <= i < |s| => LowerChar(s[i]))
  }

  /** `s.toUpperCase()`, ASCII letters only. */
  function ToUpperCase(s: string): string
  {
    seq(|s|, i requires 0 <= i < |s| => UpperChar(s[i]))
  }

  /** `needle` occurs in `hay` starting at position `i`. */
  ghost predicate OccursAt(needle: string, hay: string, i: nat)
  {
    i + |needle| <= |hay| && hay[i..i + |needle|] == needle
  }

  /** `hay.includes(needle)`. */
  function Contains(hay: string, needle: string): bool
    decreases |hay|
  {
    if |needle| > |hay| then false
    else if hay[..|needle|] == needle then true
    else Contains(hay[1..], needle)
  }

  /** The scan above finds exactly the occurrences there are. */
  lemma {:induction false} ContainsMeansOccurs(hay: string, needle: string)
    ensures Contains(hay, needle) <==> exists i: nat :: OccursAt(needle, hay, i)
    decreases |hay|
  {
    if |needle| > |hay| {
      assert forall i: nat :: !OccursAt(needle, hay, i);
    } else if hay[..|needle|] == needle {
      assert OccursAt(needle, hay, 0);
    } else {
      ContainsMeansOccurs(hay[1..], needle);
      forall i: nat | OccursAt(needle, hay[1..], i)
        ensures OccursAt(needle, hay, i + 1)
      {
        assert hay[1..][i..i + |needle|] == hay[i + 1..i + 1 + |needle|];
      }
      forall i: nat | OccursAt(needle, hay, i)
        ensures i >= 1 && OccursAt(needle, hay[1..], i - 1)
      {
        assert i != 0;
        assert hay[1..][i - 1..i - 1 + |needle|] == hay[i..i + |needle|];
      }
    }
  }

  /** Every string includes the empty string, so an empty search term
      matches every name. */
  lemma ContainsEmpty(hay: string)
    ensures Contains(hay, "")
  {
  }

  predicate IsLowerHexChar(c: char)
  {
    '0' <= c <= '9' || 'a' <= c <= 'f'
  }

  predicate IsUpperHexChar(c: char)
  {
    '0' <= c <= '9' || 'A' <= c <= 'F'
  }

  function HexDigit(n: nat): (c: char)
    requires n < 16
  {
    if n < 10 then ('0' as int + n) as char else ('a' as int + n - 10) as char
  }

  /** `buffer.toString('hex')`: two lower-case hex digits per byte, high
      nibble first. */
  function HexEncode(bytes: seq<Byte>): (s: string)
    ensures |s| == 2 * |bytes|
    ensures forall i :: 0 <= i < |s| ==> IsLowerHexChar(s[i])
  {
    if bytes == [] then ""
    else [HexDigit(bytes[0] / 16), HexDigit(bytes[0] % 16)] + HexEncode(bytes[1..])
  }

  /** The parts joined in order with no separator: `a + b + c + ...`. */
  function Concat(parts: seq<string>): string
  {
    if parts == [] then "" else Concat(parts[..|parts| - 1]) + parts[|parts| - 1]
  }

  /** Joining one more part appends it to the join. */
  lemma ConcatAppend(parts: seq<string>, x: string)
    ensures Concat(parts + [x]) == Concat(parts) + x
  {
    assert (parts + [x])[..|parts|] == parts;
  }

  lemma CancelLeft(p: string, x: string, y: string)
    requires p + x == p + y
    ensures x == y
  {
    assert x == (p + x)[|p|..];
  }

  lemma CancelRight(x: string, y: string, s: string)
    requires x + s == y + s
    ensures x == y
  {
    assert x == (x + s)[..|x|];
  }

  /** Two joins of equally many parts that agree on every part but one agree
      on that one too: a single part cannot change without the join changing. */
  lemma {:induction false} ConcatCancel(a: seq<string>, b: seq<string>, k: nat)
    requires |a| == |b| && k < |a|
    requires forall j :: 0 <= j < |a| && j != k ==> a[j] == b[j]
    requires Concat(a) == Concat(b)
    ensures a[k] == b[k]
    decreases |a|
  {
    var n := |a|;
    var a', b' := a[..n - 1], b[..n - 1];
    if k == n - 1 {
      assert a' == b';
      CancelLeft(Concat(a'), a[k], b[k]);
    } else {
      assert a[n - 1] == b[n - 1];
      CancelRight(Concat(a'), Concat(b'), a[n - 1]);
      ConcatCancel(a', b', k);
    }
  }

  /** Moving characters across the boundary between two adjacent parts does
      not change the join. */
  lemma {:induction false} ConcatShift(a: seq<string>, b: seq<string>, k: nat)
    requires |a| == |b| && k + 1 < |a|
    requires forall j :: 0 <= j < |a| && j != k && j != k + 1 ==> a[j] == b[j]
    requires a[k] + a[k + 1] == b[k] + b[k + 1]
    ensures Concat(a) == Concat(b)
    decreases |a|
  {
    var n := |a|;
    var a', b' := a[..n - 1], b[..n - 1];
    if k + 1 == n - 1 {
      assert a'[..n - 2] == b'[..n - 2];
      calc {
        Concat(a);
        Concat(a'[..n - 2]) + a[k] + a[k + 1];
        Concat(a'[..n - 2]) + (a[k] + a[k + 1]);
        Concat(b'[..n - 2]) + (b[k] + b[k + 1]);
        Concat(b'[..n - 2]) + b[k] + b[k + 1];
        Concat(b);
      }
    } else {
      ConcatShift(a', b', k);
      assert a[n - 1] == b[n - 1];
    }
  }
}
