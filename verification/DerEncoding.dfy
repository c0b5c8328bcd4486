/**
 DER encoding of items and sequences (libDER/DER_Encode.c; sections 8.1.2 and 8.1.3
 of ITU-T X.690), with two-byte tags and eight-byte sizes.
 */
module DerEncoding {
  import opened Bytes

  type Tag = x: int | 0 <= x < 0x10000

  const SIZE_LIMIT := 0x1_0000_0000_0000_0000

  /** The tag number, without class and method. */
  function TagNumber(tag: Tag): (n: nat)
    ensures n < 0x2000
  {
    tag % 0x2000
  }

  /** Class and method, in the top bits of the first byte. */
  function TagClass(tag: Tag): (b: byte)
    ensures b % 0x20 == 0
  {
    tag / 0x2000 * 0x20
  }

  /** Digits of a tag number to base 128; all but the last carry a mark. */
  function Digits(n: nat, mark: nat): (s: seq<byte>)
    requires mark == 0 || mark == 0x80
    decreases n
  {
    if n == 0 then [] else Digits(n / 0x80, 0x80) + [n % 0x80 + mark]
  }

  function TagBytes(tag: Tag): seq<byte> {
    var n := TagNumber(tag);
    if n < 0x1F then [TagClass(tag) + n] else [TagClass(tag) + 0x1F] + Digits(n, 0)
  }

  function BigEndian(n: nat): seq<byte>
    decreases n
  {
    if n == 0 then [] else BigEndian(n / 0x100) + [n % 0x100]
  }

  lemma {:induction false} BigEndianSize(n: nat, k: nat)
    requires n < Pow2(8 * k)
    ensures |BigEndian(n)| <= k
    decreases k
  {
    if k > 0 {
      Pow2Add(8, 8 * (k - 1));
      Pow2Masks();
      hide Pow2;
      BigEndianSize(n / 0x100, k - 1);
    }
  }

  lemma SizeLimitBytes(n: nat)
    requires n < SIZE_LIMIT
    ensures |BigEndian(n)| <= 8
  {
    Pow2Add(32, 32);
    Pow2Masks();
    hide Pow2;
    assert Pow2(8 * 8) == SIZE_LIMIT;
    BigEndianSize(n, 8);
  }

  function LengthBytes(n: nat): (s: seq<byte>)
    requires n < SIZE_LIMIT
    ensures |s| >= 1
  {
    SizeLimitBytes(n);
    if n < 0x80 then [n] else [0x80 + |BigEndian(n)|] + BigEndian(n)
  }

  // ----- the forms of X.690, sections 8.1.2.4 and 8.1.3

  lemma {:induction false} BigEndianIs(n: nat)
    ensures Value(BigEndian(n)) == n && (n > 0 ==> BigEndian(n) != [] && BigEndian(n)[0] != 0)
    decreases n
  {
    if n > 0 {
      BigEndianIs(n / 0x100);
      ValueAppend(BigEndian(n / 0x100), n % 0x100);
    }
  }

  /** A length below 128 is one byte; any other is a count of bytes, then the number without leading zeros. */
  lemma LengthForm(n: nat)
    requires n < SIZE_LIMIT
    ensures var s := LengthBytes(n);
            if n < 0x80 then s == [n]
            else |s| > 1 && s[0] == 0x80 + (|s| - 1) && s[1] != 0 && Value(s[1..]) == n
  {
    hide BigEndian, Value;
    BigEndianIs(n);
    assert n >= 0x80 ==> LengthBytes(n)[1..] == BigEndian(n);
  }

  /** Seven bits of each byte, most significant first. */
  function Base128(s: seq<byte>): nat
    decreases |s|
  {
    if s == [] then 0 else Base128(s[..|s| - 1]) * 0x80 + s[|s| - 1] % 0x80
  }

  lemma DigitsNext(n: nat, mark: nat)
    requires n > 0 && (mark == 0 || mark == 0x80)
    ensures Digits(n, mark) == Digits(n / 0x80, 0x80) + [n % 0x80 + mark]
  {
  }

  lemma Base128Next(s: seq<byte>, b: byte)
    ensures Base128(s + [b]) == Base128(s) * 0x80 + b % 0x80
  {
    assert (s + [b])[..|s|] == s;
  }

  lemma {:induction false} DigitsAre(n: nat, mark: nat)
    requires mark == 0 || mark == 0x80
    ensures var s := Digits(n, mark);
            && Base128(s) == n && (n > 0 ==> s != [] && s[0] % 0x80 != 0)
            && forall i :: 0 <= i < |s| ==> (s[i] >= 0x80 <==> i < |s| - 1 || mark == 0x80)
    decreases n
  {
    if n > 0 {
      hide Digits, Base128;
      var high, low := n / 0x80, n % 0x80;
      DigitsAre(high, 0x80);
      DigitOf(low, mark);
      DigitsNext(n, mark);
      Base128Next(Digits(high, 0x80), low + mark);
      NoDigits();
    }
  }

  lemma NoDigits()
    ensures Digits(0, 0x80) == []
  {
  }

  lemma DigitOf(low: nat, mark: nat)
    requires low < 0x80 && (mark == 0 || mark == 0x80)
    ensures (low + mark) % 0x80 == low && (low + mark >= 0x80 <==> mark == 0x80)
  {
  }

  /** Class and method lead; a number below 31 is in the same byte, any other follows to base 128. */
  lemma TagForm(tag: Tag)
    ensures var s, n := TagBytes(tag), TagNumber(tag);
            && s[0] / 0x20 == tag / 0x2000 && tag == tag / 0x2000 * 0x2000 + n
            && if n < 0x1F then |s| == 1 && s[0] % 0x20 == n
               else
                 && |s| > 1 && s[0] % 0x20 == 0x1F && s[1] % 0x80 != 0 && Base128(s[1..]) == n
                 && forall i :: 1 <= i < |s| ==> (s[i] >= 0x80 <==> i < |s| - 1)
  {
    hide Digits, Base128;
    DigitsAre(TagNumber(tag), 0);
    assert TagNumber(tag) >= 0x1F ==> TagBytes(tag)[1..] == Digits(TagNumber(tag), 0);
  }

  function Item(tag: Tag, content: seq<byte>): seq<byte>
    requires |content| < SIZE_LIMIT
  {
    TagBytes(tag) + LengthBytes(|content|) + content
  }

  // ----- sequences

  /** One entry of a table of item specifications. */
  datatype Spec = Spec(tag: Tag, optional: bool, any: bool, skip: bool, saveDer: bool, signedInt: bool, writeDer: bool)

  /** What is encoded as content: a zero byte keeps a signed integer positive. */
  function Content(s: Spec, data: seq<byte>): seq<byte> {
    if s.signedInt && data != [] && data[0] >= 0x80 then [0] + data else data
  }

  /**
   Content that keeps what the data say: of a signed integer the number, read as
   unsigned in the data and as positive in the content, with at most one more byte,
   and that only if the data would read as negative; of any other item the bytes.
   */
  predicate Keeps(s: Spec, data: seq<byte>, c: seq<byte>) {
    if s.signedInt && data != [] then
      && c != [] && c[0] < 0x80 && Value(c) == Value(data)
      && |data| <= |c| <= |data| + 1 && (|c| > |data| <==> data[0] >= 0x80)
    else c == data
  }

  lemma {:induction false} LeadingZero(d: seq<byte>)
    ensures Value([0] + d) == Value(d)
    decreases |d|
  {
    if d != [] {
      var n := |d| - 1;
      assert d == d[..n] + [d[n]] && [0] + d == ([0] + d[..n]) + [d[n]];
      LeadingZero(d[..n]);
      ValueAppend(d[..n], d[n]);
      ValueAppend([0] + d[..n], d[n]);
    } else {
      assert [0] + d == d + [0];
      ValueAppend(d, 0);
    }
  }

  /** The content says what the data say. */
  lemma ContentKeeps(s: Spec, data: seq<byte>)
    ensures Keeps(s, data, Content(s, data))
  {
    LeadingZero(data);
    hide Value;
  }

  /** An optional item without data: nothing is written for it. */
  predicate Omitted(s: Spec, data: seq<byte>) {
    s.optional && data == []
  }

  predicate SizesFit(specs: seq<Spec>, src: seq<seq<byte>>) {
    |src| == |specs| && forall i :: 0 <= i < |src| ==> |src[i]| + 1 < SIZE_LIMIT
  }

  function FieldBytes(s: Spec, data: seq<byte>): seq<byte>
    requires |data| + 1 < SIZE_LIMIT
  {
    if s.writeDer then data else if Omitted(s, data) then [] else Item(s.tag, Content(s, data))
  }

  /** The encoded fields from `i` on. */
  function FieldsBytes(specs: seq<Spec>, src: seq<seq<byte>>, i: nat): seq<byte>
    requires SizesFit(specs, src) && i <= |specs|
    decreases |specs| - i
  {
    if i == |specs| then [] else FieldBytes(specs[i], src[i]) + FieldsBytes(specs, src, i + 1)
  }

  function SequenceBytes(top: Tag, specs: seq<Spec>, src: seq<seq<byte>>): seq<byte>
    requires SizesFit(specs, src) && |FieldsBytes(specs, src, 0)| < SIZE_LIMIT
  {
    Item(top, FieldsBytes(specs, src, 0))
  }

  // ----- lengths

  method LengthOfTag(tag: Tag) returns (n: nat)
    ensures n == |TagBytes(tag)|
  {
    n := 1;
    var t := TagNumber(tag);
    if t >= 0x1F {
      while t != 0
        invariant n + |Digits(t, 0)| == |TagBytes(tag)|
        decreases t
      {
        DigitsMark(t / 0x80);
        n := n + 1;
        t := t / 0x80;
      }
    }
  }

  /** The mark does not change how many digits there are. */
  lemma DigitsMark(n: nat)
    ensures |Digits(n, 0)| == |Digits(n, 0x80)|
  {
  }

  method LengthOfLength(length: nat) returns (n: nat)
    requires length < SIZE_LIMIT
    ensures n == |LengthBytes(length)|
  {
    if length < 0x80 {
      return 1;
    }
    n := 1;
    var len := length;
    while len != 0
      invariant n + |BigEndian(len)| == |LengthBytes(length)|
      decreases len
    {
      n := n + 1;
      len := len / 0x100;
    }
  }

  method LengthOfItem(tag: Tag, length: nat) returns (n: nat)
    requires length < SIZE_LIMIT
    ensures n == |TagBytes(tag)| + |LengthBytes(length)| + length
  {
    var t := LengthOfTag(tag);
    var l := LengthOfLength(length);
    n := t + l + length;
  }

  /** Length of the content, with the zero byte if there will be one. */
  method ContentLength(s: Spec, data: seq<byte>) returns (n: nat, prependZero: bool)
    ensures n == |Content(s, data)| && (prependZero <==> Content(s, data) != data)
  {
    n, prependZero := |data|, false;
    if s.signedInt && |data| != 0 {
      if data[0] >= 0x80 {
        n := n + 1;
        prependZero := true;
      }
    }
  }

  method ContentLengthOfSequence(specs: seq<Spec>, src: seq<seq<byte>>) returns (n: nat)
    requires SizesFit(specs, src)
    ensures n == |FieldsBytes(specs, src, 0)|
  {
    n := 0;
    var dex := 0;
    while dex < |specs|
      invariant 0 <= dex <= |specs| && n + |FieldsBytes(specs, src, dex)| == |FieldsBytes(specs, src, 0)|
    {
      var s, data := specs[dex], src[dex];
      if s.writeDer {
        n := n + |data|;
      } else if s.optional && |data| == 0 {
      } else {
        var tagLen := LengthOfTag(s.tag);
        var contentLen, zero := ContentLength(s, data);
        var lenLen := LengthOfLength(contentLen);
        n := n + tagLen + lenLen + contentLen;
      }
      dex := dex + 1;
    }
  }

  // ----- writing

  /** Bytes outside `from` to `to` are as they were. */
  twostate predicate UnchangedOutside(buf: array<byte>, from: nat, to: nat)
    reads buf
  {
    forall i :: 0 <= i < buf.Length && !(from <= i < to) ==> buf[i] == old(buf[i])
  }

  /** Writes the digits from the last to the first. */
  method WriteDigits(buf: array<byte>, from: nat, to: nat, number: nat)
    requires from + |Digits(number, 0)| == to <= buf.Length && number > 0
    modifies buf
    ensures buf[from..to] == Digits(number, 0) && UnchangedOutside(buf, from, to)
  {
    var p, n, mark := to, number, 0;
    while n != 0
      invariant mark == 0 || mark == 0x80
      invariant from + |Digits(n, mark)| == p <= to
      invariant Digits(n, mark) + buf[p..to] == Digits(number, 0) && UnchangedOutside(buf, from, to)
      decreases n
    {
      ghost var rest := buf[p..to];
      p := p - 1;
      buf[p] := n % 0x80 + mark;
      assert buf[p..to] == [n % 0x80 + mark] + rest;
      assert Digits(n, mark) == Digits(n / 0x80, 0x80) + [n % 0x80 + mark];
      n := n / 0x80;
      mark := 0x80;
    }
    assert p == from;
  }

  method EncodeTag(tag: Tag, buf: array<byte>, at: nat, avail: nat) returns (ok: bool, outLen: nat)
    requires at + avail <= buf.Length
    modifies buf
    ensures ok <==> |TagBytes(tag)| <= avail
    ensures ok ==> outLen == |TagBytes(tag)| && buf[at..at + outLen] == TagBytes(tag)
    ensures UnchangedOutside(buf, at, at + |TagBytes(tag)|)
  {
    outLen := LengthOfTag(tag);
    var n := TagNumber(tag);
    if outLen > avail {
      return false, outLen;
    }
    if outLen == 1 {
      ShortTag(tag);
      buf[at] := TagClass(tag) + n;
    } else {
      buf[at] := TagClass(tag) + 0x1F;
      WriteDigits(buf, at + 1, at + outLen, n);
      assert buf[at..at + outLen] == [buf[at]] + buf[at + 1..at + outLen];
    }
    ok := true;
  }

  /** The short form is one byte long, the long form never. */
  lemma ShortTag(tag: Tag)
    ensures |TagBytes(tag)| == 1 <==> TagNumber(tag) < 0x1F
  {
    assert TagNumber(tag) > 0 ==> |Digits(TagNumber(tag), 0)| >= 1;
  }

  /** Writes the bytes of a length from the last to the first. */
  method WriteBigEndian(buf: array<byte>, from: nat, to: nat, number: nat)
    requires from + |BigEndian(number)| == to <= buf.Length
    modifies buf
    ensures buf[from..to] == BigEndian(number) && UnchangedOutside(buf, from, to)
  {
    var p, n := to, number;
    while n != 0
      invariant from + |BigEndian(n)| == p <= to
      invariant BigEndian(n) + buf[p..to] == BigEndian(number) && UnchangedOutside(buf, from, to)
      decreases n
    {
      ghost var rest := buf[p..to];
      p := p - 1;
      buf[p] := n % 0x100;
      assert buf[p..to] == [n % 0x100] + rest;
      assert BigEndian(n) == BigEndian(n / 0x100) + [n % 0x100];
      n := n / 0x100;
    }
    assert p == from;
  }

  method EncodeLength(length: nat, buf: array<byte>, at: nat, avail: nat) returns (ok: bool, outLen: nat)
    requires at + avail <= buf.Length && length < SIZE_LIMIT
    modifies buf
    ensures ok <==> |LengthBytes(length)| <= avail
    ensures ok ==> outLen == |LengthBytes(length)| && buf[at..at + outLen] == LengthBytes(length)
    ensures UnchangedOutside(buf, at, at + |LengthBytes(length)|)
  {
    outLen := LengthOfLength(length);
    if outLen > avail {
      return false, outLen;
    }
    if length < 0x80 {
      buf[at] := length;
      return true, 1;
    }
    SizeLimitBytes(length);
    EncodeLong(length, buf, at, outLen);
    ok := true;
  }

  /** The long form: a count of bytes, and the bytes. */
  method EncodeLong(length: nat, buf: array<byte>, at: nat, outLen: nat)
    requires at + outLen <= buf.Length && outLen == 1 + |BigEndian(length)| && |BigEndian(length)| <= 8
    modifies buf
    ensures buf[at..at + outLen] == [0x80 + |BigEndian(length)|] + BigEndian(length)
    ensures UnchangedOutside(buf, at, at + outLen)
  {
    hide BigEndian;
    buf[at] := outLen - 1 + 0x80;
    WriteBigEndian(buf, at + 1, at + outLen, length);
    assert buf[at..at + outLen] == [buf[at]] + buf[at + 1..at + outLen];
  }

  method Copy(data: seq<byte>, buf: array<byte>, at: nat)
    requires at + |data| <= buf.Length
    modifies buf
    ensures buf[at..at + |data|] == data && UnchangedOutside(buf, at, at + |data|)
  {
    for i := 0 to |data|
      invariant buf[at..at + i] == data[..i] && UnchangedOutside(buf, at, at + i)
    {
      buf[at + i] := data[i];
    }
  }

  /** Tag and length of an item. */
  method EncodeHeader(tag: Tag, length: nat, buf: array<byte>, at: nat, avail: nat) returns (ok: bool, outLen: nat)
    requires at + avail <= buf.Length && length < SIZE_LIMIT
    modifies buf
    ensures ok <==> |TagBytes(tag)| + |LengthBytes(length)| <= avail
    ensures ok ==> outLen == |TagBytes(tag)| + |LengthBytes(length)|
                   && buf[at..at + outLen] == TagBytes(tag) + LengthBytes(length)
    ensures UnchangedOutside(buf, at, at + |TagBytes(tag)| + |LengthBytes(length)|)
  {
    hide TagBytes, LengthBytes;
    var tagLen, lenLen;
    ok, tagLen := EncodeTag(tag, buf, at, avail);
    if !ok {
      return ok, tagLen;
    }
    ghost var first := buf[at..at + tagLen];
    ok, lenLen := EncodeLength(length, buf, at + tagLen, avail - tagLen);
    if !ok {
      return ok, tagLen;
    }
    outLen := tagLen + lenLen;
    assert buf[at..at + outLen] == buf[at..at + tagLen] + buf[at + tagLen..at + outLen];
    assert buf[at..at + tagLen] == first;
  }

  method EncodeItem(tag: Tag, src: seq<byte>, buf: array<byte>, at: nat, avail: nat) returns (ok: bool, outLen: nat)
    requires at + avail <= buf.Length && |src| < SIZE_LIMIT
    modifies buf
    ensures ok <==> |Item(tag, src)| <= avail
    ensures ok ==> outLen == |Item(tag, src)| && buf[at..at + outLen] == Item(tag, src)
    ensures UnchangedOutside(buf, at, at + |Item(tag, src)|)
  {
    hide TagBytes, LengthBytes;
    outLen := LengthOfItem(tag, |src|);
    if outLen > avail {
      return false, outLen;
    }
    var header;
    ok, header := EncodeHeader(tag, |src|, buf, at, outLen);
    ghost var first := buf[at..at + header];
    Copy(src, buf, at + header);
    assert buf[at..at + header] == first;
    assert buf[at..at + outLen] == buf[at..at + header] + buf[at + header..at + outLen];
  }

  /** One field; the caller has made sure that it fits. */
  method EncodeField(s: Spec, data: seq<byte>, buf: array<byte>, at: nat, avail: nat) returns (ok: bool, next: nat)
    requires at + avail <= buf.Length && |data| + 1 < SIZE_LIMIT && |FieldBytes(s, data)| <= avail
    modifies buf
    ensures ok && next == at + |FieldBytes(s, data)| && buf[at..next] == FieldBytes(s, data)
    ensures UnchangedOutside(buf, at, next)
  {
    hide TagBytes, LengthBytes;
    if s.writeDer {
      Copy(data, buf, at);
      return true, at + |data|;
    }
    if s.optional && |data| == 0 {
      return true, at;
    }
    var contentLen, prependZero := ContentLength(s, data);
    var header;
    ok, header := EncodeHeader(s.tag, contentLen, buf, at, avail);
    if !ok {
      return ok, at;
    }
    ghost var first := buf[at..at + header];
    next := WriteContent(s, data, prependZero, buf, at + header);
    assert buf[at..at + header] == first;
    assert buf[at..next] == buf[at..at + header] + buf[at + header..next];
  }

  /** The content, with its leading zero if there is one. */
  method WriteContent(s: Spec, data: seq<byte>, prependZero: bool, buf: array<byte>, at: nat) returns (next: nat)
    requires at + |Content(s, data)| <= buf.Length && (prependZero <==> Content(s, data) != data)
    modifies buf
    ensures next == at + |Content(s, data)| && buf[at..next] == Content(s, data) && UnchangedOutside(buf, at, next)
  {
    next := at;
    if prependZero {
      buf[next] := 0;
      next := next + 1;
    }
    Copy(data, buf, next);
    next := next + |data|;
    if prependZero {
      assert buf[at..next] == [buf[at]] + buf[at + 1..next];
    }
  }

  /**
   Encodes a sequence. It succeeds exactly if the encoding fits, writes exactly the
   length figured beforehand, and no size check fails after the first ones.
   */
  method EncodeSequence(top: Tag, specs: seq<Spec>, src: seq<seq<byte>>, buf: array<byte>, avail: nat)
    returns (ok: bool, outLen: nat)
    requires avail <= buf.Length && SizesFit(specs, src) && |FieldsBytes(specs, src, 0)| < SIZE_LIMIT
    modifies buf
    ensures ok <==> |SequenceBytes(top, specs, src)| <= avail
    ensures ok ==> outLen == |SequenceBytes(top, specs, src)| && buf[..outLen] == SequenceBytes(top, specs, src)
  {
    hide TagBytes, LengthBytes, FieldBytes, FieldsBytes;
    ghost var fields := FieldsBytes(specs, src, 0);
    var tagLen;
    ok, tagLen := EncodeTag(top, buf, 0, avail);
    if !ok {
      return ok, 0;
    }
    if tagLen >= avail {
      return false, 0;
    }
    ghost var first := buf[..tagLen];
    assert first == TagBytes(top);
    var contentLen := ContentLengthOfSequence(specs, src);
    var lenLen;
    ok, lenLen := EncodeLength(contentLen, buf, tagLen, avail - tagLen);
    if !ok {
      return ok, 0;
    }
    var start := tagLen + lenLen;
    if start + contentLen > avail {
      return false, 0;
    }
    assert buf[..start] == buf[..tagLen] + buf[tagLen..start];
    assert buf[..tagLen] == first;
    ok, outLen := EncodeFields(specs, src, buf, start, avail);
    assert buf[..outLen] == buf[..start] + buf[start..outLen];
  }

  method EncodeFields(specs: seq<Spec>, src: seq<seq<byte>>, buf: array<byte>, start: nat, avail: nat)
    returns (ok: bool, end: nat)
    requires SizesFit(specs, src) && start + |FieldsBytes(specs, src, 0)| <= avail <= buf.Length
    modifies buf
    ensures ok && end == start + |FieldsBytes(specs, src, 0)| && buf[start..end] == FieldsBytes(specs, src, 0)
    ensures UnchangedOutside(buf, start, end)
  {
    hide FieldBytes;
    end := start;
    var dex := 0;
    while dex < |specs|
      invariant 0 <= dex <= |specs| && start <= end
      invariant end + |FieldsBytes(specs, src, dex)| == start + |FieldsBytes(specs, src, 0)|
      invariant buf[start..end] + FieldsBytes(specs, src, dex) == FieldsBytes(specs, src, 0)
      invariant UnchangedOutside(buf, start, end)
    {
      ghost var was, from := buf[start..end], end;
      ok, end := EncodeField(specs[dex], src[dex], buf, end, avail - end);
      if !ok {
        return;
      }
      assert buf[start..from] == was;
      assert buf[start..end] == was + buf[from..end];
      dex := dex + 1;
    }
    ok := true;
  }
}
