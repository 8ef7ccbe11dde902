/**
  Strings and bytes as the connection handler sees them: Rust's `String` is
  UTF-8, `str::split` cuts a string at every occurrence of a separator, and
  `usize` values are written in decimal by `format!`.
 */
module Text {

  /** One octet of a byte stream. */
  newtype byte = b: int | 0 <= b < 256

  /** The UTF-8 encoding of one Unicode scalar value (RFC 3629, section 3). */
  function Utf8(c: char): (r: seq<byte>)
    ensures 1 <= |r| <= 4
    ensures (c as int) < 0x80 ==> r == [(c as int) as byte]
    ensures (c as int) >= 0x80 ==> forall i :: 0 <= i < |r| ==> r[i] >= 0x80
  {
    var cp := c as int;
    if cp < 0x80 then
      [cp as byte]
    else if cp < 0x800 then
      [(0xC0 + cp / 0x40) as byte, (0x80 + cp % 0x40) as byte]
    else if cp < 0x1_0000 then
      [(0xE0 + cp / 0x1000) as byte, (0x80 + (cp / 0x40) % 0x40) as byte, (0x80 + cp % 0x40) as byte]
    else
      [(0xF0 + cp / 0x4_0000) as byte, (0x80 + (cp / 0x1000) % 0x40) as byte,
       (0x80 + (cp / 0x40) % 0x40) as byte, (0x80 + cp % 0x40) as byte]
  }

  /** The bytes of a string, as `String::as_bytes` gives them. */
  function Encode(s: string): (r: seq<byte>)
    ensures |r| >= |s|
  {
    if s == [] then [] else Utf8(s[0]) + Encode(s[1..])
  }

  /** Encoding distributes over concatenation, as `format!` relies on. */
  lemma {:induction false} EncodeConcat(a: string, b: string)
    ensures Encode(a + b) == Encode(a) + Encode(b)
  {
    if a == [] {
      assert a + b == b;
    } else {
      assert (a + b)[0] == a[0] && (a + b)[1..] == a[1..] + b;
      EncodeConcat(a[1..], b);
    }
  }

  /** An ASCII character's byte occurs in an encoding exactly when the
      character occurs in the string: multi-byte sequences only hold bytes
      of 0x80 and above. */
  lemma {:induction false} EncodeAsciiByte(s: string, c: char)
    requires (c as int) < 0x80
    ensures ((c as int) as byte in Encode(s)) <==> c in s
  {
    if s != [] {
      EncodeAsciiByte(s[1..], c);
      assert Encode(s) == Utf8(s[0]) + Encode(s[1..]);
      assert s == [s[0]] + s[1..];
      if (s[0] as int) < 0x80 {
        assert Utf8(s[0]) == [(s[0] as int) as byte];
      }
    }
  }

  /** A string of ASCII characters encodes to one byte per character. */
  lemma {:induction false} EncodeAscii(s: string)
    requires forall i :: 0 <= i < |s| ==> (s[i] as int) < 0x80
    ensures |Encode(s)| == |s|
    ensures forall i :: 0 <= i < |s| ==> Encode(s)[i] == (s[i] as int) as byte
  {
    if s != [] {
      EncodeAscii(s[1..]);
      assert Encode(s) == [(s[0] as int) as byte] + Encode(s[1..]);
    }
  }

  /** An ASCII character is encoded as its own code at its own index when
      no character before it is outside ASCII. */
  lemma {:induction false} EncodeAsciiAt(s: string, i: nat)
    requires i < |s|
    requires forall j :: 0 <= j <= i ==> (s[j] as int) < 0x80
    ensures Encode(s)[i] == (s[i] as int) as byte
  {
    assert Encode(s) == Utf8(s[0]) + Encode(s[1..]);
    if i > 0 {
      EncodeAsciiAt(s[1..], i - 1);
    }
  }

  /** Rejoins tokens, putting `sep` between neighbours. */
  function Join(ts: seq<string>, sep: char): string
  {
    if |ts| == 0 then ""
    else if |ts| == 1 then ts[0]
    else ts[0] + [sep] + Join(ts[1..], sep)
  }

  lemma JoinExtendHead(c: char, ts: seq<string>, sep: char)
    requires |ts| >= 1
    ensures Join([[c] + ts[0]] + ts[1..], sep) == [c] + Join(ts, sep)
  {
    var us := [[c] + ts[0]] + ts[1..];
    assert us[1..] == ts[1..];
  }

  /** `s.split(sep).collect()`: the pieces of `s` between occurrences of
      `sep`, so that the empty string gives one empty piece and two
      neighbouring separators give an empty piece between them. */
  function Split(s: string, sep: char): (r: seq<string>)
    ensures |r| >= 1
    ensures forall i :: 0 <= i < |r| ==> sep !in r[i]
    ensures Join(r, sep) == s
    ensures |r| >= 2 <==> sep in s
  {
    if s == [] then [""]
    else
      var rest := Split(s[1..], sep);
      if s[0] == sep then
        assert s == [sep] + s[1..];
        [""] + rest
      else
        JoinExtendHead(s[0], rest, sep);
        assert s == [s[0]] + s[1..];
        [[s[0]] + rest[0]] + rest[1..]
  }

  /** A piece free of the separator is split off first. */
  lemma {:induction false} SplitPrefix(t: string, sep: char, x: string)
    requires sep !in t
    ensures Split(t + [sep] + x, sep) == [t] + Split(x, sep)
  {
    var s := t + [sep] + x;
    if t == [] {
      assert s[1..] == x;
    } else {
      assert s[1..] == t[1..] + [sep] + x;
      SplitPrefix(t[1..], sep, x);
      assert [t[0]] + t[1..] == t;
    }
  }

  /** Splitting undoes joining separator-free tokens. */
  lemma {:induction false} SplitJoin(ts: seq<string>, sep: char)
    requires |ts| >= 1
    requires forall i :: 0 <= i < |ts| ==> sep !in ts[i]
    ensures Split(Join(ts, sep), sep) == ts
  {
    if |ts| == 1 {
      assert Split(ts[0], sep) == ts;
    } else {
      SplitJoin(ts[1..], sep);
      SplitPrefix(ts[0], sep, Join(ts[1..], sep));
      assert [ts[0]] + ts[1..] == ts;
    }
  }

  /** The first two tokens of `t`, a separator, `x` and then either nothing
      or text beginning with a separator are `t` and `x`. */
  lemma SplitFirstTwo(t: string, sep: char, x: string, tail: string)
    requires sep !in t && sep !in x
    requires tail == [] || tail[0] == sep
    ensures var ts := Split(t + [sep] + x + tail, sep);
      |ts| >= 2 && ts[0] == t && ts[1] == x
  {
    assert t + [sep] + x + tail == t + [sep] + (x + tail);
    SplitPrefix(t, sep, x + tail);
    SplitFirstToken(x, sep, tail);
  }

  /** Text free of the separator, then nothing or a separator: that text is
      the first token. */
  lemma SplitFirstToken(x: string, sep: char, tail: string)
    requires sep !in x
    requires tail == [] || tail[0] == sep
    ensures Split(x + tail, sep)[0] == x
  {
    if tail == [] {
      assert x + tail == x;
      SplitJoin([x], sep);
    } else {
      assert x + tail == x + [sep] + tail[1..];
      SplitPrefix(x, sep, tail[1..]);
    }
  }

  /** A string that holds neither CR nor LF. */
  predicate IsLineString(s: string)
  {
    forall i :: 0 <= i < |s| ==> s[i] != '\r' && s[i] != '\n'
  }

  lemma LineStringConcat(a: string, b: string)
    requires IsLineString(a) && IsLineString(b)
    ensures IsLineString(a + b)
  {
    forall i | 0 <= i < |a + b| ensures (a + b)[i] != '\r' && (a + b)[i] != '\n' {
      if i >= |a| { assert (a + b)[i] == b[i - |a|]; }
    }
  }

  /** The character written for a decimal digit. */
  function DigitChar(d: nat): (c: char)
    requires d < 10
    ensures '0' <= c <= '9' && (c as int) - ('0' as int) == d
  {
    (('0' as int) + d) as char
  }

  /** `{}` applied to an unsigned integer: its decimal digits, most
      significant first, without leading zeros. */
  function Decimal(n: nat): (r: string)
    ensures |r| >= 1
    ensures forall i :: 0 <= i < |r| ==> '0' <= r[i] <= '9'
    ensures r[0] == '0' <==> n == 0
    ensures n == 0 ==> r == "0"
  {
    if n < 10 then [DigitChar(n)] else Decimal(n / 10) + [DigitChar(n % 10)]
  }
}
