/**
  The HTTP/1.1 message layout the handler writes: a start-line, field lines,
  an empty line and the body, each line ended by CRLF (section 2.1 of
  RFC 9112), and the decimal `Content-Length` field (section 8.6 of
  RFC 9110). `Parse` reads a message back line by line; it is the partner
  against which the handler's response is checked.
 */
module Http {
  import opened Wrappers
  import opened Text

  const CR: byte := 13
  const LF: byte := 10
  const CRLF: seq<byte> := [CR, LF]
  /** The CRLF that ends the last field line followed by the empty line. */
  const HeaderEnd: seq<byte> := [CR, LF, CR, LF]

  /** A message: start-line, field lines and body, without line ends. */
  datatype Message = Message(startLine: seq<byte>, fields: seq<seq<byte>>, body: seq<byte>)

  /** A line holds neither CR nor LF. */
  predicate IsLineText(l: seq<byte>)
  {
    forall i :: 0 <= i < |l| ==> l[i] != CR && l[i] != LF
  }

  /** A field line: not empty, and free of CR and LF. */
  predicate IsFieldLine(l: seq<byte>)
  {
    l != [] && IsLineText(l)
  }

  /** A string without CR and LF encodes to line text. */
  lemma EncodeLineText(s: string)
    requires IsLineString(s)
    ensures IsLineText(Encode(s))
  {
    assert '\r' !in s && '\n' !in s;
    EncodeAsciiByte(s, '\r');
    EncodeAsciiByte(s, '\n');
  }

  /** Every field line is non-empty line text: an empty one would end the
      header section. */
  predicate WellFormed(m: Message)
  {
    && IsLineText(m.startLine)
    && forall i :: 0 <= i < |m.fields| ==> m.fields[i] != [] && IsLineText(m.fields[i])
  }

  lemma WellFormedPair(start: seq<byte>, a: seq<byte>, b: seq<byte>, body: seq<byte>)
    requires IsLineText(start)
    requires a != [] && IsLineText(a) && b != [] && IsLineText(b)
    ensures WellFormed(Message(start, [a, b], body))
  {
  }

  /** Each line followed by CRLF. */
  function Lines(ls: seq<seq<byte>>): seq<byte>
  {
    if ls == [] then [] else ls[0] + CRLF + Lines(ls[1..])
  }

  lemma LinesPair(a: seq<byte>, b: seq<byte>)
    ensures Lines([a, b]) == a + CRLF + b + CRLF
  {
    assert [a, b][1..] == [b];
    assert [b][1..] == [];
    assert Lines([b]) == b + CRLF;
    assert Lines([a, b]) == a + CRLF + Lines([b]);
  }

  /** start-line CRLF *( field-line CRLF ) CRLF [ message-body ] */
  function Serialize(m: Message): seq<byte>
  {
    m.startLine + CRLF + Lines(m.fields) + CRLF + m.body
  }

  /** `pat` occurs in `s` starting at index `j`. */
  predicate OccursAt(s: seq<byte>, pat: seq<byte>, j: nat)
  {
    j + |pat| <= |s| && s[j..j + |pat|] == pat
  }

  /** The first index at or after `from` where `pat` occurs in `s`. */
  function IndexOf(s: seq<byte>, pat: seq<byte>, from: nat): (r: Option<nat>)
    decreases |s| - from
    ensures r.Some? ==> from <= r.value && OccursAt(s, pat, r.value)
    ensures r.Some? ==> forall j :: from <= j < r.value ==> !OccursAt(s, pat, j)
    ensures r.None? ==> forall j :: from <= j ==> !OccursAt(s, pat, j)
  {
    if from + |pat| > |s| then None
    else if s[from..from + |pat|] == pat then Some(from)
    else IndexOf(s, pat, from + 1)
  }

  /** The field lines up to the empty line, and what follows it. */
  function ParseFields(b: seq<byte>): Option<(seq<seq<byte>>, seq<byte>)>
    decreases |b|
  {
    if |b| >= 2 && b[..2] == CRLF then Some(([], b[2..]))
    else
      match IndexOf(b, CRLF, 0)
      case None => None
      case Some(i) =>
        match ParseFields(b[i + 2..])
        case None => None
        case Some(rest) => Some(([b[..i]] + rest.0, rest.1))
  }

  /** Reads a message line by line: the start-line up to the first CRLF,
      then field lines up to the first empty line; the rest is the body. */
  function Parse(b: seq<byte>): Option<Message>
  {
    match IndexOf(b, CRLF, 0)
    case None => None
    case Some(i) =>
      match ParseFields(b[i + 2..])
      case None => None
      case Some(rest) => Some(Message(b[..i], rest.0, rest.1))
  }

  /** An occurrence with none before it is the one `IndexOf` finds. */
  lemma IndexOfFirst(s: seq<byte>, pat: seq<byte>, from: nat, k: nat)
    requires from <= k && OccursAt(s, pat, k)
    requires forall j :: from <= j < k ==> !OccursAt(s, pat, j)
    ensures IndexOf(s, pat, from) == Some(k)
  {
  }

  /** A marker starting with CR cannot start at a byte that is not CR. */
  lemma NotAtNonCr(s: seq<byte>, pat: seq<byte>, j: nat, d: nat)
    requires d < |pat| && pat[d] == CR
    requires j + d < |s| && s[j + d] != CR
    ensures !OccursAt(s, pat, j)
  {
  }

  /** A line of line text is ended by the first CRLF after it. */
  lemma FirstCrlf(l: seq<byte>, rest: seq<byte>)
    requires IsLineText(l)
    ensures IndexOf(l + CRLF + rest, CRLF, 0) == Some(|l|)
  {
    var s := l + CRLF + rest;
    assert s[|l|..|l| + 2] == CRLF;
    forall j | 0 <= j < |l| ensures !OccursAt(s, CRLF, j) {
      assert s[j] == l[j];
      NotAtNonCr(s, CRLF, j, 0);
    }
    IndexOfFirst(s, CRLF, 0, |l|);
  }

  lemma {:induction false} ParseFieldsLines(fields: seq<seq<byte>>, body: seq<byte>)
    requires forall i :: 0 <= i < |fields| ==> fields[i] != [] && IsLineText(fields[i])
    ensures ParseFields(Lines(fields) + CRLF + body) == Some((fields, body))
  {
    var b := Lines(fields) + CRLF + body;
    if fields == [] {
      assert b == CRLF + body;
      assert b[..2] == CRLF && b[2..] == body;
    } else {
      var f := fields[0];
      var tail := Lines(fields[1..]) + CRLF + body;
      assert b == f + CRLF + tail;
      assert b[0] == f[0] != CR;
      assert b[..2][0] == b[0];
      FirstCrlf(f, tail);
      assert b[|f| + 2..] == tail;
      assert b[..|f|] == f;
      ParseFieldsLines(fields[1..], body);
      assert [f] + fields[1..] == fields;
    }
  }

  /** Parsing recovers every well-formed message from its serialisation. */
  lemma ParseSerialize(m: Message)
    requires WellFormed(m)
    ensures Parse(Serialize(m)) == Some(m)
  {
    var tail := Lines(m.fields) + CRLF + m.body;
    var b := Serialize(m);
    assert b == m.startLine + CRLF + tail;
    FirstCrlf(m.startLine, tail);
    assert b[|m.startLine| + 2..] == tail;
    assert b[..|m.startLine|] == m.startLine;
    ParseFieldsLines(m.fields, m.body);
  }

  lemma {:induction false} LinesOfParseFields(b: seq<byte>)
    requires ParseFields(b).Some?
    ensures Lines(ParseFields(b).value.0) + CRLF + ParseFields(b).value.1 == b
    decreases |b|
  {
    if |b| >= 2 && b[..2] == CRLF {
      assert b == b[..2] + b[2..];
    } else {
      var i := IndexOf(b, CRLF, 0).value;
      LinesOfParseFields(b[i + 2..]);
      var rest := ParseFields(b[i + 2..]).value;
      assert ParseFields(b).value == ([b[..i]] + rest.0, rest.1);
      LinesCons(b[..i], rest.0);
      SplitAround(b, i);
      RegroupLines(b[..i], Lines(rest.0), rest.1);
    }
  }

  lemma LinesCons(f: seq<byte>, fs: seq<seq<byte>>)
    ensures Lines([f] + fs) == f + CRLF + Lines(fs)
  {
    assert ([f] + fs)[1..] == fs;
  }

  /** Whatever parses is exactly the serialisation of what it parses to. */
  lemma SerializeParse(b: seq<byte>)
    requires Parse(b).Some?
    ensures Serialize(Parse(b).value) == b
  {
    var i := IndexOf(b, CRLF, 0).value;
    var tail := b[i + 2..];
    var rest := ParseFields(tail).value;
    var m := Message(b[..i], rest.0, rest.1);
    assert Parse(b) == Some(m);
    LinesOfParseFields(tail);
    SplitAround(b, i);
    SerializeRegroup(m);
  }

  lemma SerializeRegroup(m: Message)
    ensures Serialize(m) == m.startLine + CRLF + (Lines(m.fields) + CRLF + m.body)
  {
    RegroupLines(m.startLine, Lines(m.fields), m.body);
  }

  /** A sequence holding CRLF at `i` is what precedes it, CRLF and what
      follows it. */
  lemma SplitAround(b: seq<byte>, i: nat)
    requires OccursAt(b, CRLF, i)
    ensures b == b[..i] + CRLF + b[i + 2..]
  {
    assert b == b[..i] + b[i..i + 2] + b[i + 2..];
  }

  lemma RegroupLines(s: seq<byte>, l: seq<byte>, body: seq<byte>)
    ensures s + CRLF + l + CRLF + body == s + CRLF + (l + CRLF + body)
  {
  }

  lemma OccursAtShift(a: seq<byte>, y: seq<byte>, pat: seq<byte>, j: nat)
    ensures OccursAt(a + y, pat, |a| + j) <==> OccursAt(y, pat, j)
  {
    if |a| + j + |pat| <= |a + y| {
      assert (a + y)[|a| + j..|a| + j + |pat|] == y[j..j + |pat|];
    }
  }

  /** Inside a line and on its LF no CR starts the header end. */
  lemma FirstLineClear(l: seq<byte>, y: seq<byte>)
    requires IsLineText(l)
    ensures forall j :: 0 <= j <= |l| + 1 && j != |l| ==> !OccursAt(l + CRLF + y, HeaderEnd, j)
  {
    var x := l + CRLF + y;
    forall j | 0 <= j <= |l| + 1 && j != |l| ensures !OccursAt(x, HeaderEnd, j) {
      assert x[j] != CR by {
        if j < |l| { assert x[j] == l[j]; }
      }
      NotAtNonCr(x, HeaderEnd, j, 0);
    }
  }

  /** A line of line text and its CRLF put in front of text whose first
      header end is at `k` and which does not start with CR: the first header
      end moves by the length of what was put in front. */
  lemma HeaderEndShift(l: seq<byte>, y: seq<byte>, k: nat)
    requires IsLineText(l)
    requires y != [] && y[0] != CR
    requires OccursAt(y, HeaderEnd, k)
    requires forall j :: 0 <= j < k ==> !OccursAt(y, HeaderEnd, j)
    ensures OccursAt(l + CRLF + y, HeaderEnd, |l| + 2 + k)
    ensures forall j :: 0 <= j < |l| + 2 + k ==> !OccursAt(l + CRLF + y, HeaderEnd, j)
  {
    var x := l + CRLF + y;
    assert x == (l + CRLF) + y;
    FirstLineClear(l, y);
    OccursAtShift(l + CRLF, y, HeaderEnd, k);
    assert x[|l| + 2] == y[0];
    NotAtNonCr(x, HeaderEnd, |l|, 2);
    forall j | |l| + 2 <= j < |l| + 2 + k ensures !OccursAt(x, HeaderEnd, j) {
      OccursAtShift(l + CRLF, y, HeaderEnd, j - |l| - 2);
    }
  }

  /** In lines of line text, none empty after the first, then an empty
      line, the first CRLF CRLF is the one that ends the last line. */
  lemma {:induction false} FirstHeaderEnd(ls: seq<seq<byte>>, rest: seq<byte>)
    requires |ls| >= 1
    requires forall i :: 0 <= i < |ls| ==> IsLineText(ls[i])
    requires forall i :: 1 <= i < |ls| ==> ls[i] != []
    ensures |Lines(ls)| >= 2
    ensures OccursAt(Lines(ls) + CRLF + rest, HeaderEnd, |Lines(ls)| - 2)
    ensures forall j :: 0 <= j < |Lines(ls)| - 2 ==> !OccursAt(Lines(ls) + CRLF + rest, HeaderEnd, j)
  {
    var l := ls[0];
    var y := Lines(ls[1..]) + CRLF + rest;
    assert Lines(ls) + CRLF + rest == l + CRLF + y;
    if |ls| == 1 {
      assert Lines(ls[1..]) == [];
      FirstLineClear(l, y);
      assert (l + CRLF + y)[|l|..|l| + 4] == HeaderEnd;
    } else {
      FirstHeaderEnd(ls[1..], rest);
      assert y[0] == ls[1][0];
      HeaderEndShift(l, y, |Lines(ls[1..])| - 2);
    }
  }

  /** What a reader that reads the head up to the first CRLF CRLF takes as
      the body: everything after it. */
  function BodyAfterHead(s: seq<byte>): (r: Option<seq<byte>>)
    ensures r.Some? <==> exists k :: OccursAt(s, HeaderEnd, k)
    ensures r.Some? ==> |r.value| + 4 <= |s| && r.value == s[|s| - |r.value|..]
  {
    match IndexOf(s, HeaderEnd, 0)
    case None => None
    case Some(k) => Some(s[k + 4..])
  }

  /** The body of a well-formed message is what follows the first
      CRLF CRLF of its serialisation. */
  lemma BodyAfterHeaderEnd(m: Message)
    requires WellFormed(m)
    ensures IndexOf(Serialize(m), HeaderEnd, 0) == Some(|m.startLine| + |Lines(m.fields)|)
    ensures BodyAfterHead(Serialize(m)) == Some(m.body)
  {
    var ls := [m.startLine] + m.fields;
    assert ls[1..] == m.fields;
    assert Serialize(m) == Lines(ls) + CRLF + m.body;
    FirstHeaderEnd(ls, m.body);
    IndexOfFirst(Serialize(m), HeaderEnd, 0, |m.startLine| + |Lines(m.fields)|);
  }

  /** A well-formed message with two field lines reads back as itself, and
      its body follows the first CRLF CRLF. */
  lemma FramingPair(start: seq<byte>, a: seq<byte>, b: seq<byte>, body: seq<byte>)
    requires IsLineText(start)
    requires IsFieldLine(a) && IsFieldLine(b)
    ensures var p := Parse(Serialize(Message(start, [a, b], body)));
      && p.Some? && p.value.startLine == start && p.value.fields == [a, b] && p.value.body == body
    ensures BodyAfterHead(Serialize(Message(start, [a, b], body))) == Some(body)
  {
    var m := Message(start, [a, b], body);
    WellFormedPair(start, a, b, body);
    ParseSerialize(m);
    BodyAfterHeaderEnd(m);
  }

  predicate IsDigit(b: byte)
  {
    48 <= b <= 57
  }

  /** `1*DIGIT`, most significant digit first; None for anything else. */
  function ParseDecimal(b: seq<byte>): (r: Option<nat>)
    ensures r.Some? <==> b != [] && forall i :: 0 <= i < |b| ==> IsDigit(b[i])
  {
    if b == [] || !IsDigit(b[|b| - 1]) then None
    else if |b| == 1 then Some((b[0] - 48) as nat)
    else
      match ParseDecimal(b[..|b| - 1])
      case None => None
      case Some(v) => Some(10 * v + (b[|b| - 1] - 48) as nat)
  }

  /** `name` is a prefix of `f`. */
  predicate StartsWith(f: seq<byte>, name: seq<byte>)
  {
    |f| >= |name| && f[..|name|] == name
  }

  /** What follows `name` on the first field line that begins with it. */
  function FieldValue(fields: seq<seq<byte>>, name: seq<byte>): (r: Option<seq<byte>>)
    ensures r.Some? ==> exists i :: 0 <= i < |fields| && fields[i] == name + r.value
  {
    if fields == [] then None
    else
      var f := fields[0];
      if StartsWith(f, name) then
        assert f == name + f[|name|..];
        Some(f[|name|..])
      else
        var r := FieldValue(fields[1..], name);
        if r.Some? then
          ghost var i :| 0 <= i < |fields[1..]| && fields[1..][i] == name + r.value;
          assert fields[i + 1] == name + r.value;
          r
        else r
  }

  /** The search finds nothing exactly when no field line begins with
      `name`, and what it finds comes from the first line that does. */
  lemma {:induction false} FieldValueFirst(fields: seq<seq<byte>>, name: seq<byte>)
    ensures FieldValue(fields, name).None? <==> forall i :: 0 <= i < |fields| ==> !StartsWith(fields[i], name)
    ensures FieldValue(fields, name).Some? ==>
      exists i :: 0 <= i < |fields| && fields[i] == name + FieldValue(fields, name).value
        && forall j :: 0 <= j < i ==> !StartsWith(fields[j], name)
  {
    if fields != [] && !StartsWith(fields[0], name) {
      FieldValueFirst(fields[1..], name);
      assert forall i :: 1 <= i < |fields| ==> fields[i] == fields[1..][i - 1];
      var r := FieldValue(fields[1..], name);
      if r.Some? {
        var i :| 0 <= i < |fields[1..]| && fields[1..][i] == name + r.value
               && forall j :: 0 <= j < i ==> !StartsWith(fields[1..][j], name);
        assert fields[i + 1] == name + r.value;
      }
    } else if fields != [] {
      assert fields[0] == name + fields[0][|name|..];
    }
  }

  /** A field line after one that does not begin with `name` is found. */
  lemma FieldValueSecond(a: seq<byte>, name: seq<byte>, v: seq<byte>)
    requires !StartsWith(a, name)
    ensures FieldValue([a, name + v], name) == Some(v)
  {
    var fields := [a, name + v];
    assert fields[1..] == [name + v];
    assert (name + v)[..|name|] == name && (name + v)[|name|..] == v;
  }

  /** The value of the first `Content-Length` field line. */
  function ContentLength(fields: seq<seq<byte>>): Option<nat>
  {
    match FieldValue(fields, Encode("Content-Length: "))
    case None => None
    case Some(v) => ParseDecimal(v)
  }

  /** Reading back a number written in decimal gives the number. */
  lemma {:induction false} ParseDecimalOfDecimal(n: nat)
    ensures ParseDecimal(Encode(Decimal(n))) == Some(n)
    decreases n
  {
    var d := DigitChar(n % 10);
    assert Encode([d]) == [((d as int) as byte)];
    if n < 10 {
      assert Decimal(n) == [d];
    } else {
      var x := Encode(Decimal(n / 10));
      EncodeConcat(Decimal(n / 10), [d]);
      ParseDecimalOfDecimal(n / 10);
      var b := x + [(d as int) as byte];
      assert Encode(Decimal(n)) == b;
      assert b[..|b| - 1] == x;
    }
  }
}
