/**
 DER decoding (libDER/DER_Decode.c): items, and sequences matched against a table
 of specifications. What the encoder writes is recovered.
 */
module DerDecoding {
  import opened Bytes
  import opened DerEncoding

  datatype Error = UnexpectedTag | DecodeError | IncompleteSeq

  datatype Result<T> = Ok(value: T) | Err(error: Error)

  /** A decoded header: the tag, where the content begins, and how long it is. */
  datatype Decoded = Decoded(tag: Tag, header: nat, length: nat)

  /** Tag number so far, and how many bytes were read. */
  datatype Read = Read(value: nat, count: nat)

  /** Digits of a long tag; one more byte, of the length, must follow each. */
  function ReadDigits(s: seq<byte>, n: nat): (r: Result<Read>)
    ensures r.Ok? ==> r.value.count < |s|
    decreases |s|
  {
    if |s| < 2 || n >= 0x200 then Err(DecodeError) else
    var m := n * 0x80 + s[0] % 0x80;
    if s[0] < 0x80 then Ok(Read(m, 1)) else
    match ReadDigits(s[1..], m)
    case Err(e) => Err(e)
    case Ok(r) => Ok(Read(r.value, r.count + 1))
  }

  /** Class and method from the first byte, with a tag number. */
  function TagOf(first: byte, number: nat): nat {
    var top: int := first / 0x20;
    top * 0x2000 + number
  }

  function ReadTag(s: seq<byte>): (r: Result<Read>)
    ensures r.Ok? ==> r.value.count < |s| && r.value.value < 0x10000
  {
    if |s| < 2 then Err(DecodeError)
    else if s[0] % 0x20 != 0x1F then Ok(Read(TagOf(s[0], s[0] % 0x20), 1))
    else
      match ReadDigits(s[1..], 0)
      case Err(e) => Err(e)
      case Ok(r) =>
        if r.value >= 0x2000 then Err(DecodeError)
        else Ok(Read(TagOf(s[0], r.value), r.count + 1))
  }

  function Number(s: seq<byte>): nat
    decreases |s|
  {
    if s == [] then 0 else Number(s[..|s| - 1]) * 0x100 + s[|s| - 1]
  }

  const SIZE_BYTES := 8

  function ReadLength(s: seq<byte>): (r: Result<Read>)
    requires s != []
    ensures r.Ok? ==> r.value.count <= |s| && r.value.value <= |s| - r.value.count
  {
    if s[0] < 0x80 then (if s[0] > |s| - 1 then Err(DecodeError) else Ok(Read(s[0], 1)))
    else
      var k := s[0] - 0x80;
      if k > SIZE_BYTES || k > |s| - 1 then Err(DecodeError)
      else if Number(s[1..1 + k]) > |s| - 1 - k then Err(DecodeError)
      else Ok(Read(Number(s[1..1 + k]), 1 + k))
  }

  function Decode(s: seq<byte>): (r: Result<Decoded>)
    ensures r.Ok? ==> 0 < r.value.header && r.value.header + r.value.length <= |s|
  {
    match ReadTag(s)
    case Err(e) => Err(e)
    case Ok(t) =>
      match ReadLength(s[t.count..])
      case Err(e) => Err(e)
      case Ok(l) => Ok(Decoded(t.value, t.count + l.count, l.value))
  }

  // ----- sequences against a table

  datatype Field = Absent | Present(bytes: seq<byte>)

  /** The specification an item with this tag belongs to, skipping optional ones. */
  function Seek(specs: seq<Spec>, tag: Tag, i: nat): (r: Result<nat>)
    requires i <= |specs|
    ensures r.Ok? ==> i <= r.value < |specs|
    decreases |specs| - i
  {
    if i == |specs| then Err(UnexpectedTag)
    else if specs[i].any || specs[i].tag == tag then Ok(i)
    else if !specs[i].optional then Err(UnexpectedTag)
    else Seek(specs, tag, i + 1)
  }

  predicate AllOptional(specs: seq<Spec>, i: nat) {
    forall j :: i <= j < |specs| ==> specs[j].optional
  }

  /** What a matched specification stores: the content, or the item whole, or nothing. */
  function Stored(spec: Spec, s: seq<byte>, d: Decoded, dest: Field): Field
    requires d.header + d.length <= |s|
  {
    if spec.skip then dest
    else if spec.saveDer then Present(s[..d.header + d.length])
    else Present(s[d.header..d.header + d.length])
  }

  function Parse(specs: seq<Spec>, s: seq<byte>, i: nat, dest: seq<Field>): (r: Result<seq<Field>>)
    requires i <= |specs| == |dest|
    ensures r.Ok? ==> |r.value| == |specs|
    decreases |specs| - i
  {
    if i == |specs| then Ok(dest)
    else if s == [] then (if AllOptional(specs, i) then Ok(dest) else Err(IncompleteSeq))
    else
      match Decode(s)
      case Err(e) => Err(e)
      case Ok(d) =>
        match Seek(specs, d.tag, i)
        case Err(e) => Err(e)
        case Ok(j) => Parse(specs, s[d.header + d.length..], j + 1, dest[j := Stored(specs[j], s, d, dest[j])])
  }

  const CONSTR_SEQUENCE := 0x2010

  function ParseSequence(specs: seq<Spec>, s: seq<byte>, dest: seq<Field>): Result<seq<Field>>
    requires |specs| == |dest|
  {
    match Decode(s)
    case Err(e) => Err(e)
    case Ok(d) =>
      if d.tag != CONSTR_SEQUENCE then Err(UnexpectedTag)
      else Parse(specs, s[d.header..d.header + d.length], 0, dest)
  }

  // ----- the decoder's cursors

  /** The digits of a long tag, up to the first without a mark. */
  method DecodeDigits(s: seq<byte>) returns (r: Result<Read>)
    ensures r == ReadDigits(s, 0)
  {
    var p: nat, tagNumber: nat, more := 0, 0, true;
    ghost var all := ReadDigits(s, 0);
    assert s[0..] == s;
    while more
      invariant 0 <= p <= |s|
      invariant more ==> all == Counted(ReadDigits(s[p..], tagNumber), p)
      invariant !more ==> all == Ok(Read(tagNumber, p))
      decreases |s| - p, more
    {
      if |s| - p < 2 || tagNumber >= 0x200 {
        return Err(DecodeError);
      }
      assert s[p..] == [s[p]] + s[p + 1..];
      DigitRead(s[p], s[p + 1..], tagNumber, p);
      var tagByte := s[p];
      p := p + 1;
      tagNumber := tagNumber * 0x80 + tagByte % 0x80;
      more := tagByte >= 0x80;
    }
    r := Ok(Read(tagNumber, p));
  }

  /** Reading one digit. */
  lemma DigitRead(d: byte, tail: seq<byte>, n: nat, k: nat)
    requires n < 0x200 && tail != []
    ensures var m := n * 0x80 + d % 0x80;
            Counted(ReadDigits([d] + tail, n), k)
            == if d < 0x80 then Ok(Read(m, k + 1)) else Counted(ReadDigits(tail, m), k + 1)
  {
    assert ([d] + tail)[1..] == tail;
  }

  method DecodeTag(s: seq<byte>) returns (r: Result<Read>)
    ensures r == ReadTag(s)
  {
    if |s| < 2 {
      return Err(DecodeError);
    }
    if s[0] % 0x20 != 0x1F {
      return Ok(Read(TagOf(s[0], s[0] % 0x20), 1));
    }
    var digits := DecodeDigits(s[1..]);
    if digits.Err? {
      return digits;
    }
    if digits.value.value >= 0x2000 {
      return Err(DecodeError);
    }
    r := Ok(Read(TagOf(s[0], digits.value.value), digits.value.count + 1));
  }

  method DecodeLength(s: seq<byte>) returns (r: Result<Read>)
    requires s != []
    ensures r == ReadLength(s)
  {
    var len1, rest := s[0], |s| - 1;
    if len1 < 0x80 {
      if len1 > rest {
        return Err(DecodeError);
      }
      return Ok(Read(len1, 1));
    }
    var k := len1 - 0x80;
    if k > SIZE_BYTES || k > rest {
      return Err(DecodeError);
    }
    var longLen, dex := 0, 0;
    while dex < k
      invariant 0 <= dex <= k && longLen == Number(s[1..1 + dex])
    {
      assert s[1..1 + dex + 1] == s[1..1 + dex] + [s[1 + dex]];
      longLen := longLen * 0x100 + s[1 + dex];
      dex := dex + 1;
    }
    if longLen > rest - k {
      return Err(DecodeError);
    }
    r := Ok(Read(longLen, 1 + k));
  }

  method DecodeItem(s: seq<byte>) returns (r: Result<Decoded>)
    ensures r == Decode(s)
  {
    var tag := DecodeTag(s);
    if tag.Err? {
      return Err(tag.error);
    }
    var len := DecodeLength(s[tag.value.count..]);
    if len.Err? {
      return Err(len.error);
    }
    r := Ok(Decoded(tag.value.value, tag.value.count + len.value.count, len.value.value));
  }

  /** A result `n` bytes further on. */
  ghost function Counted(r: Result<Read>, n: nat): Result<Read> {
    match r
    case Err(e) => Err(e)
    case Ok(x) => Ok(Read(x.value, x.count + n))
  }

  /** Seeks the specification for a tag, skipping over optional ones. */
  method SeekSpec(specs: seq<Spec>, tag: Tag, from: nat) returns (r: Result<nat>)
    requires from <= |specs|
    ensures r == Seek(specs, tag, from)
  {
    var i := from;
    while i < |specs|
      invariant from <= i <= |specs| && Seek(specs, tag, i) == Seek(specs, tag, from)
    {
      if specs[i].any || specs[i].tag == tag {
        return Ok(i);
      }
      if !specs[i].optional {
        return Err(UnexpectedTag);
      }
      i := i + 1;
    }
    r := Err(UnexpectedTag);
  }

  /** At the end of the content the remaining specifications must all be optional. */
  method CheckEnd(specs: seq<Spec>, from: nat) returns (ok: bool)
    requires from <= |specs|
    ensures ok <==> AllOptional(specs, from)
  {
    var i := from;
    while i < |specs|
      invariant from <= i <= |specs| && forall j :: from <= j < i ==> specs[j].optional
    {
      if !specs[i].optional {
        return false;
      }
      i := i + 1;
    }
    ok := true;
  }

  lemma ParseStep(specs: seq<Spec>, s: seq<byte>, i: nat, dest: seq<Field>)
    requires i < |specs| == |dest|
    ensures s == [] ==> Parse(specs, s, i, dest) == if AllOptional(specs, i) then Ok(dest) else Err(IncompleteSeq)
    ensures s != [] && Decode(s).Err? ==> Parse(specs, s, i, dest) == Err(Decode(s).error)
    ensures s != [] && Decode(s).Ok? ==>
              var d := Decode(s).value;
              match Seek(specs, d.tag, i)
              case Err(e) => Parse(specs, s, i, dest) == Err(e)
              case Ok(j) =>
                Parse(specs, s, i, dest)
                == Parse(specs, s[d.header + d.length..], j + 1, dest[j := Stored(specs[j], s, d, dest[j])])
  {
    hide Decode, Seek, Stored;
  }

  method ParseSequenceContent(specs: seq<Spec>, content: seq<byte>, dest: array<Field>) returns (error: Result<()>)
    requires dest.Length == |specs|
    modifies dest
    ensures match Parse(specs, content, 0, old(dest[..]))
            case Ok(fields) => error.Ok? && dest[..] == fields
            case Err(e) => error == Err(e)
  {
    hide Parse, Decode, Seek, AllOptional, Stored;
    ghost var all := Parse(specs, content, 0, dest[..]);
    var rest, itemDex := content, 0;
    while itemDex < |specs|
      invariant 0 <= itemDex <= |specs| && Parse(specs, rest, itemDex, dest[..]) == all
      decreases |specs| - itemDex
    {
      ParseStep(specs, rest, itemDex, dest[..]);
      if |rest| == 0 {
        var ok := CheckEnd(specs, itemDex);
        return if ok then Ok(()) else Err(IncompleteSeq);
      }
      var item := DecodeItem(rest);
      if item.Err? {
        return Err(item.error);
      }
      var d := item.value;
      var found := SeekSpec(specs, d.tag, itemDex);
      if found.Err? {
        return Err(found.error);
      }
      StoreField(specs[found.value], rest, d, dest, found.value);
      rest := rest[d.header + d.length..];
      itemDex := found.value + 1;
    }
    ParseEnd(specs, rest);
    error := Ok(());
  }

  /** Stores what a matched item gives. */
  method StoreField(spec: Spec, s: seq<byte>, d: Decoded, dest: array<Field>, i: nat)
    requires d.header + d.length <= |s| && i < dest.Length
    modifies dest
    ensures dest[..] == old(dest[..])[i := Stored(spec, s, d, old(dest[i]))]
  {
    if !spec.skip {
      dest[i] := Present(if spec.saveDer then s[..d.header + d.length] else s[d.header..d.header + d.length]);
    }
  }

  lemma ParseEnd(specs: seq<Spec>, s: seq<byte>)
    ensures forall dest :: |dest| == |specs| ==> Parse(specs, s, |specs|, dest) == Ok(dest)
  {
  }

  // ----- round trips

  lemma {:induction false} MarkedDigits(m: nat, tail: seq<byte>)
    requires m < 0x200 && |tail| >= 2
    ensures ReadDigits(Digits(m, 0x80) + tail, 0)
            == Counted(ReadDigits(tail, m), |Digits(m, 0x80)|)
    decreases m
  {
    if m > 0 {
      var d: byte, h := m % 0x80 + 0x80, m / 0x80;
      assert Digits(m, 0x80) == Digits(h, 0x80) + [d];
      assert h * 0x80 + d % 0x80 == m;
      hide Digits, ReadDigits;
      assert Digits(m, 0x80) + tail == Digits(h, 0x80) + ([d] + tail);
      MarkedDigits(h, [d] + tail);
      DigitRead(d, tail, h, |Digits(h, 0x80)|);
    } else {
      assert [] + tail == tail;
    }
  }

  lemma TagRoundTrip(tag: Tag, rest: seq<byte>)
    requires rest != []
    ensures ReadTag(TagBytes(tag) + rest) == Ok(Read(tag, |TagBytes(tag)|))
  {
    var n, s := TagNumber(tag), TagBytes(tag) + rest;
    assert TagOf(TagClass(tag) + (if n < 0x1F then n else 0x1F), n) == tag;
    if n >= 0x1F {
      var d := n % 0x80;
      assert Digits(n, 0) == Digits(n / 0x80, 0x80) + [d];
      assert s[1..] == Digits(n / 0x80, 0x80) + ([d] + rest);
      MarkedDigits(n / 0x80, [d] + rest);
      assert ReadDigits([d] + rest, n / 0x80) == Ok(Read(n, 1));
    }
  }

  lemma {:induction false} NumberBigEndian(n: nat)
    ensures Number(BigEndian(n)) == n
    decreases n
  {
    if n > 0 {
      NumberBigEndian(n / 0x100);
      assert BigEndian(n)[..|BigEndian(n)| - 1] == BigEndian(n / 0x100);
    }
  }

  lemma LengthRoundTrip(n: nat, rest: seq<byte>)
    requires n < SIZE_LIMIT && n <= |rest|
    ensures ReadLength(LengthBytes(n) + rest) == Ok(Read(n, |LengthBytes(n)|))
  {
    if n >= 0x80 {
      SizeLimitBytes(n);
      NumberBigEndian(n);
      var s, k := LengthBytes(n) + rest, |BigEndian(n)|;
      assert s[1..1 + k] == BigEndian(n);
    }
  }

  /** Every tag and every content comes back, whatever follows. */
  lemma ItemRoundTrip(tag: Tag, content: seq<byte>, rest: seq<byte>)
    requires |content| < SIZE_LIMIT
    ensures var s, h := Item(tag, content) + rest, |TagBytes(tag)| + |LengthBytes(|content|)|;
            && Decode(s) == Ok(Decoded(tag, h, |content|)) && s[h..h + |content|] == content
            && s[..h + |content|] == Item(tag, content) && s[h + |content|..] == rest
  {
    hide TagBytes, LengthBytes, ReadTag, ReadLength;
    var s, t, l := Item(tag, content) + rest, TagBytes(tag), LengthBytes(|content|);
    assert s == t + (l + (content + rest));
    TagRoundTrip(tag, l + (content + rest));
    assert s[|t|..] == l + (content + rest);
    LengthRoundTrip(|content|, content + rest);
  }

  // ----- sequences

  /** The tag an item is written with: the specification's, or that of an item given in encoded form. */
  function TagIn(s: Spec, data: seq<byte>): Tag {
    if s.writeDer && Decode(data).Ok? then Decode(data).value.tag else s.tag
  }

  predicate Matches(s: Spec, tag: Tag) {
    s.any || s.tag == tag
  }

  /** From item `i` on, no optional item left out matches the tag of the next item present. */
  predicate Unambiguous(specs: seq<Spec>, src: seq<seq<byte>>, i: nat)
    requires SizesFit(specs, src)
  {
    forall a, j :: i <= a < j < |specs| && Gap(specs, src, a, j) ==> !Matches(specs[a], TagIn(specs[j], src[j]))
  }

  /** Items `i` to `j - 1` are left out, and item `j` is not. */
  predicate Gap(specs: seq<Spec>, src: seq<seq<byte>>, i: nat, j: nat)
    requires SizesFit(specs, src)
  {
    i <= j < |specs| && !Omitted(specs[j], src[j]) && forall k :: i <= k < j ==> Omitted(specs[k], src[k])
  }

  /** An item given in encoded form is one item, of any tag or with the tag of its specification. */
  predicate WholeItem(s: Spec, data: seq<byte>) {
    match Decode(data)
    case Err(_) => false
    case Ok(d) => Matches(s, d.tag) && d.header + d.length == |data|
  }

  /** An item is left out, or is content to encode, or is one whole item. */
  predicate GoodItem(s: Spec, data: seq<byte>) {
    s.writeDer && !Omitted(s, data) ==> WholeItem(s, data)
  }

  predicate GoodSource(specs: seq<Spec>, src: seq<seq<byte>>) {
    SizesFit(specs, src) && forall i :: 0 <= i < |specs| ==> GoodItem(specs[i], src[i])
  }

  /** The field a present item is decoded to. */
  function Recovered(s: Spec, data: seq<byte>): Field
    requires |data| + 1 < SIZE_LIMIT && GoodItem(s, data)
  {
    if Omitted(s, data) || s.skip then Absent
    else if s.saveDer then Present(FieldBytes(s, data))
    else if s.writeDer then Present(data[Decode(data).value.header..])
    else Present(Content(s, data))
  }

  /** Decoding depends on the item's own bytes alone. */
  lemma DecodePrefix(s: seq<byte>, rest: seq<byte>)
    requires Decode(s).Ok? && Decode(s).value.header + Decode(s).value.length == |s|
    ensures Decode(s + rest) == Decode(s)
  {
    TagPrefix(s, rest);
    var c := ReadTag(s).value.count;
    assert (s + rest)[c..] == s[c..] + rest;
    LengthPrefix(s[c..], rest);
  }

  lemma {:induction false} DigitsPrefix(s: seq<byte>, rest: seq<byte>, n: nat)
    requires ReadDigits(s, n).Ok?
    ensures ReadDigits(s + rest, n) == ReadDigits(s, n)
    decreases |s|
  {
    assert (s + rest)[1..] == s[1..] + rest;
    if s[0] >= 0x80 {
      DigitsPrefix(s[1..], rest, n * 0x80 + s[0] % 0x80);
    }
  }

  lemma TagPrefix(s: seq<byte>, rest: seq<byte>)
    requires ReadTag(s).Ok?
    ensures ReadTag(s + rest) == ReadTag(s)
  {
    assert (s + rest)[1..] == s[1..] + rest;
    if s[0] % 0x20 == 0x1F {
      DigitsPrefix(s[1..], rest, 0);
    }
  }

  lemma LengthPrefix(s: seq<byte>, rest: seq<byte>)
    requires s != [] && ReadLength(s).Ok?
    ensures ReadLength(s + rest) == ReadLength(s)
  {
    if s[0] >= 0x80 {
      var k := s[0] - 0x80;
      assert (s + rest)[1..1 + k] == s[1..1 + k];
    }
  }

  /** A present item is decoded with its tag, and what is stored is the field. */
  lemma FieldRoundTrip(s: Spec, data: seq<byte>, rest: seq<byte>)
    requires |data| + 1 < SIZE_LIMIT && !Omitted(s, data) && GoodItem(s, data)
    ensures var bytes := FieldBytes(s, data) + rest;
            && bytes != [] && Decode(bytes).Ok? && Decode(bytes).value.tag == TagIn(s, data)
            && Matches(s, TagIn(s, data))
            && var d := Decode(bytes).value;
               && bytes[d.header + d.length..] == rest
               && Stored(s, bytes, d, Absent) == Recovered(s, data)
  {
    hide Decode;
    if s.writeDer {
      DecodePrefix(data, rest);
      var d := Decode(data).value;
      assert (data + rest)[d.header..d.header + d.length] == data[d.header..];
      assert (data + rest)[..d.header + d.length] == data;
    } else {
      ItemRoundTrip(s.tag, Content(s, data), rest);
    }
  }

  lemma SkipOmitted(specs: seq<Spec>, src: seq<seq<byte>>, i: nat, j: nat)
    requires SizesFit(specs, src) && Gap(specs, src, i, j) && i < j
    ensures specs[i].optional && Omitted(specs[i], src[i])
    ensures Gap(specs, src, i + 1, j) && FieldsBytes(specs, src, i) == FieldsBytes(specs, src, i + 1)
  {
    assert FieldBytes(specs[i], src[i]) == [];
    assert [] + FieldsBytes(specs, src, i + 1) == FieldsBytes(specs, src, i + 1);
  }

  /** The first specification from `i` on that a tag matches, at `j` at the latest. */
  function FirstMatch(specs: seq<Spec>, tag: Tag, i: nat, j: nat): (k: nat)
    requires i <= j < |specs|
    ensures i <= k <= j && (k < j ==> Matches(specs[k], tag))
    ensures forall a :: i <= a < k ==> !Matches(specs[a], tag)
    decreases j - i
  {
    if i == j || Matches(specs[i], tag) then i else FirstMatch(specs, tag, i + 1, j)
  }

  /** The next item present is taken for the first item that its tag matches. */
  lemma {:induction false} SeekNext(specs: seq<Spec>, src: seq<seq<byte>>, i: nat, j: nat, tag: Tag)
    requires SizesFit(specs, src) && Gap(specs, src, i, j) && Matches(specs[j], tag)
    ensures i <= j < |specs| && Seek(specs, tag, i) == Ok(FirstMatch(specs, tag, i, j))
    ensures FieldsBytes(specs, src, i) == FieldsBytes(specs, src, j)
    decreases j - i
  {
    hide FieldsBytes, Gap, Omitted;
    assert i <= j < |specs| by { GapFacts(specs, src, i, j); }
    if i < j {
      SkipOmitted(specs, src, i, j);
      SeekNext(specs, src, i + 1, j, tag);
    }
  }

  lemma GapFacts(specs: seq<Spec>, src: seq<seq<byte>>, i: nat, j: nat)
    requires SizesFit(specs, src) && Gap(specs, src, i, j)
    ensures i <= j < |specs| && !Omitted(specs[j], src[j])
  {
  }

  lemma {:induction false} NoneLeft(specs: seq<Spec>, src: seq<seq<byte>>, i: nat)
    requires SizesFit(specs, src) && i <= |specs| && forall k :: i <= k < |specs| ==> Omitted(specs[k], src[k])
    ensures FieldsBytes(specs, src, i) == [] && AllOptional(specs, i)
    decreases |specs| - i
  {
    if i < |specs| {
      NoneLeft(specs, src, i + 1);
    }
  }

  /** The next item present, if there is one. */
  function NextPresent(specs: seq<Spec>, src: seq<seq<byte>>, i: nat): (j: nat)
    requires SizesFit(specs, src) && i <= |specs|
    ensures i <= j <= |specs| && forall k :: i <= k < j ==> Omitted(specs[k], src[k])
    ensures j < |specs| ==> Gap(specs, src, i, j)
    decreases |specs| - i
  {
    if i == |specs| || !Omitted(specs[i], src[i]) then i else NextPresent(specs, src, i + 1)
  }

  /** Fields up to `i` recovered, the others still absent. */
  predicate SoFar(specs: seq<Spec>, src: seq<seq<byte>>, dest: seq<Field>, i: nat)
    requires GoodSource(specs, src)
  {
    |dest| == |specs| && forall k :: 0 <= k < |specs| ==> dest[k] == if k < i then Recovered(specs[k], src[k]) else Absent
  }

  lemma SoFarSize(specs: seq<Spec>, src: seq<seq<byte>>, dest: seq<Field>, i: nat)
    requires GoodSource(specs, src) && SoFar(specs, src, dest, i)
    ensures SizesFit(specs, src) && |dest| == |specs|
  {
  }

  /** The item at `j` extends what is recovered past the items left out before it. */
  lemma SoFarNext(specs: seq<Spec>, src: seq<seq<byte>>, dest: seq<Field>, i: nat, j: nat)
    requires GoodSource(specs, src) && SoFar(specs, src, dest, i) && i <= j < |specs|
    requires forall k :: i <= k < j ==> Omitted(specs[k], src[k])
    ensures |dest| == |specs| && dest[j] == Absent
    ensures SoFar(specs, src, dest[j := Recovered(specs[j], src[j])], j + 1)
  {
    AbsentFields(specs, src, i, j);
    hide Recovered, GoodSource;
  }

  lemma SoFarAll(specs: seq<Spec>, src: seq<seq<byte>>, dest: seq<Field>, i: nat)
    requires GoodSource(specs, src) && SoFar(specs, src, dest, i) && i <= |specs|
    requires forall k :: i <= k < |specs| ==> Omitted(specs[k], src[k])
    ensures |dest| == |specs| && SoFar(specs, src, dest, |specs|)
  {
    AbsentFields(specs, src, i, |specs|);
    hide Recovered, GoodSource;
  }

  lemma PresentItem(specs: seq<Spec>, src: seq<seq<byte>>, i: nat, j: nat)
    requires GoodSource(specs, src) && Gap(specs, src, i, j)
    ensures SizesFit(specs, src) && |src[j]| + 1 < SIZE_LIMIT && !Omitted(specs[j], src[j]) && GoodItem(specs[j], src[j])
    ensures FieldsBytes(specs, src, j) == FieldBytes(specs[j], src[j]) + FieldsBytes(specs, src, j + 1)
  {
  }

  /** Parsing the next item present: it is stored where its tag first matches. */
  lemma {:induction false} PresentStep(specs: seq<Spec>, src: seq<seq<byte>>, dest: seq<Field>, i: nat, j: nat, k: nat)
    returns (x: Field)
    requires GoodSource(specs, src) && |dest| == |specs| && Gap(specs, src, i, j)
    requires SizesFit(specs, src) && i <= j < |specs| && k == FirstMatch(specs, TagIn(specs[j], src[j]), i, j)
    ensures GoodItem(specs[j], src[j]) && |src[j]| + 1 < SIZE_LIMIT
    ensures specs[k].skip || x.Present?
    ensures k == j && dest[j] == Absent ==> x == Recovered(specs[j], src[j])
    ensures Parse(specs, FieldsBytes(specs, src, i), i, dest)
            == Parse(specs, FieldsBytes(specs, src, j + 1), k + 1, dest[k := x])
  {
    PresentItem(specs, src, i, j);
    hide Decode, Recovered, FieldBytes, FieldsBytes, GoodSource, Parse, Seek, Omitted, GoodItem, Gap, AllOptional, TagIn,
      FirstMatch, Stored, SizesFit, Matches;
    var tag := TagIn(specs[j], src[j]);
    var bytes, rest := FieldsBytes(specs, src, i), FieldsBytes(specs, src, j + 1);
    FieldRoundTrip(specs[j], src[j], rest);
    SeekNext(specs, src, i, j, tag);
    ParseItem(specs, bytes, i, dest, k);
    x := Stored(specs[k], bytes, Decode(bytes).value, dest[k]);
    StoredPresent(specs[k], bytes, Decode(bytes).value, dest[k]);
  }

  lemma StoredPresent(spec: Spec, s: seq<byte>, d: Decoded, dest: Field)
    requires d.header + d.length <= |s|
    ensures spec.skip || Stored(spec, s, d, dest).Present?
  {
  }

  lemma {:induction false} ParseItem(specs: seq<Spec>, s: seq<byte>, i: nat, dest: seq<Field>, j: nat)
    requires i < |specs| == |dest| && s != [] && Decode(s).Ok? && Seek(specs, Decode(s).value.tag, i) == Ok(j)
    ensures var d := Decode(s).value;
            Parse(specs, s, i, dest)
            == Parse(specs, s[d.header + d.length..], j + 1, dest[j := Stored(specs[j], s, d, dest[j])])
  {
    hide Decode, Seek, Stored;
  }

  lemma {:induction false} FieldsRoundTrip(specs: seq<Spec>, src: seq<seq<byte>>, dest: seq<Field>, i: nat)
    requires GoodSource(specs, src) && i <= |specs| && SoFar(specs, src, dest, i) && Unambiguous(specs, src, i)
    ensures SizesFit(specs, src) && |dest| == |specs|
    ensures var r := Parse(specs, FieldsBytes(specs, src, i), i, dest);
            r.Ok? && SoFar(specs, src, r.value, |specs|)
    decreases |specs| - i
  {
    hide Recovered, FieldsBytes, GoodSource, SoFar, Parse, Omitted, GoodItem, Gap, AllOptional, Unambiguous, FirstMatch, TagIn,
      SizesFit;
    SoFarSize(specs, src, dest, i);
    var j := NextPresent(specs, src, i);
    if j == |specs| {
      NothingMore(specs, src, dest, i);
    } else {
      StraightTo(specs, src, i, j);
      UnambiguousAfter(specs, src, i, j);
      SoFarNext(specs, src, dest, i, j);
      var _ := PresentStep(specs, src, dest, i, j, j);
      FieldsRoundTrip(specs, src, dest[j := Recovered(specs[j], src[j])], j + 1);
    }
  }

  /** With only left-out items to come, parsing ends and leaves them absent. */
  lemma {:induction false} NothingMore(specs: seq<Spec>, src: seq<seq<byte>>, dest: seq<Field>, i: nat)
    requires GoodSource(specs, src) && i <= |specs| && SoFar(specs, src, dest, i)
    requires forall k :: i <= k < |specs| ==> Omitted(specs[k], src[k])
    ensures SizesFit(specs, src) && |dest| == |specs|
    ensures var r := Parse(specs, FieldsBytes(specs, src, i), i, dest);
            r.Ok? && SoFar(specs, src, r.value, |specs|)
  {
    hide Recovered, FieldsBytes, GoodSource, SoFar, Parse, WholeItem, Gap, AllOptional;
    SoFarAll(specs, src, dest, i);
    assert SizesFit(specs, src) by { GoodSizes(specs, src); }
    NoneLeft(specs, src, i);
    if i < |specs| {
      ParseStep(specs, [], i, dest);
    } else {
      ParseEnd(specs, []);
    }
  }

  lemma GoodSizes(specs: seq<Spec>, src: seq<seq<byte>>)
    requires GoodSource(specs, src)
    ensures SizesFit(specs, src)
  {
  }

  /** Without ambiguity the tag of the next item present first matches its own specification. */
  lemma StraightTo(specs: seq<Spec>, src: seq<seq<byte>>, i: nat, j: nat)
    requires SizesFit(specs, src) && Gap(specs, src, i, j) && Unambiguous(specs, src, i)
    ensures i <= j < |specs| && FirstMatch(specs, TagIn(specs[j], src[j]), i, j) == j
  {
    hide TagIn, Matches, Omitted;
    var k := FirstMatch(specs, TagIn(specs[j], src[j]), i, j);
    assert Gap(specs, src, k, j);
  }

  /** Past an item present, ambiguity is only among what follows, unless its tag matches before it. */
  lemma UnambiguousAfter(specs: seq<Spec>, src: seq<seq<byte>>, i: nat, j: nat)
    requires SizesFit(specs, src) && Gap(specs, src, i, j)
    ensures i <= j < |specs|
    ensures FirstMatch(specs, TagIn(specs[j], src[j]), i, j) == j ==>
              (Unambiguous(specs, src, i) <==> Unambiguous(specs, src, j + 1))
  {
    hide TagIn, FirstMatch, Matches;
    var tag := TagIn(specs[j], src[j]);
    if FirstMatch(specs, tag, i, j) == j && Unambiguous(specs, src, j + 1) {
      forall a, b | i <= a < b < |specs| && Gap(specs, src, a, b) ensures !Matches(specs[a], TagIn(specs[b], src[b])) {
        if a < j {
          assert b == j;
        } else {
          assert a != j;
        }
      }
    }
  }

  lemma AbsentFields(specs: seq<Spec>, src: seq<seq<byte>>, i: nat, j: nat)
    requires GoodSource(specs, src) && i <= j <= |specs| && forall k :: i <= k < j ==> Omitted(specs[k], src[k])
    ensures forall k :: i <= k < j ==> Recovered(specs[k], src[k]) == Absent
  {
  }

  /** The fields a parse should give. */
  function AllRecovered(specs: seq<Spec>, src: seq<seq<byte>>): seq<Field>
    requires GoodSource(specs, src)
  {
    seq(|specs|, k requires 0 <= k < |specs| => Recovered(specs[k], src[k]))
  }

  /**
   What a field should hold: nothing for an item left out or skipped; the data, or
   their content, of an item given whole; else content that keeps what the data say,
   by itself or in an item with the tag of the table.
   */
  predicate Meant(s: Spec, data: seq<byte>, f: Field) {
    if Omitted(s, data) || s.skip then f == Absent
    else if f == Absent then false
    else if s.writeDer then Decode(data).Ok? && f.bytes == if s.saveDer then data else data[Decode(data).value.header..]
    else if s.saveDer then
      var r := Decode(f.bytes);
      && r.Ok? && r.value.tag == s.tag && r.value.header + r.value.length == |f.bytes|
      && Keeps(s, data, f.bytes[r.value.header..])
    else Keeps(s, data, f.bytes)
  }

  lemma RecoveredMeant(s: Spec, data: seq<byte>)
    requires |data| + 1 < SIZE_LIMIT && GoodItem(s, data)
    ensures Meant(s, data, Recovered(s, data))
  {
    hide Decode, Keeps, Content;
    ContentKeeps(s, data);
    if s.saveDer && !s.writeDer && !Omitted(s, data) {
      var c := Content(s, data);
      assert |c| < SIZE_LIMIT by { ContentSize(s, data); }
      ItemRoundTrip(s.tag, c, []);
      assert Item(s.tag, c) + [] == Item(s.tag, c);
      var h := |TagBytes(s.tag)| + |LengthBytes(|c|)|;
      assert Item(s.tag, c)[h..] == Item(s.tag, c)[h..h + |c|];
    }
  }

  lemma ContentSize(s: Spec, data: seq<byte>)
    ensures |Content(s, data)| <= |data| + 1
  {
  }

  /**
   Every field of an encoded sequence is recovered: present ones with their content
   (and a zero byte in front of what would be negative), omitted ones as absent. All
   it takes is that no item left out matches the tag of the next one present.
   */
  lemma SequenceRoundTrip(specs: seq<Spec>, src: seq<seq<byte>>, dest: seq<Field>, rest: seq<byte>)
    requires GoodSource(specs, src) && Unambiguous(specs, src, 0) && |FieldsBytes(specs, src, 0)| < SIZE_LIMIT
    requires |dest| == |specs| && forall k :: 0 <= k < |dest| ==> dest[k] == Absent
    ensures ParseSequence(specs, SequenceBytes(CONSTR_SEQUENCE, specs, src) + rest, dest) == Ok(AllRecovered(specs, src))
    ensures forall k :: 0 <= k < |specs| ==> Meant(specs[k], src[k], AllRecovered(specs, src)[k])
  {
    hide Decode, Recovered, Unambiguous, FieldsBytes, Meant;
    forall k | 0 <= k < |specs| ensures Meant(specs[k], src[k], AllRecovered(specs, src)[k]) {
      RecoveredMeant(specs[k], src[k]);
    }
    ItemRoundTrip(CONSTR_SEQUENCE, FieldsBytes(specs, src, 0), rest);
    FieldsRoundTrip(specs, src, dest, 0);
    var r := Parse(specs, FieldsBytes(specs, src, 0), 0, dest);
    assert r.value == AllRecovered(specs, src);
  }

  // ----- and without that, one is not

  /** Fields before the next specification stay as they are. */
  lemma {:induction false} ParseKeeps(specs: seq<Spec>, s: seq<byte>, i: nat, dest: seq<Field>, k: nat)
    requires k < i <= |specs| == |dest|
    ensures Parse(specs, s, i, dest).Ok? ==> Parse(specs, s, i, dest).value[k] == dest[k]
    decreases |specs| - i
  {
    hide Decode, Seek, Stored, AllOptional;
    if i < |specs| && s != [] && Decode(s).Ok? && Seek(specs, Decode(s).value.tag, i).Ok? {
      var d := Decode(s).value;
      var j := Seek(specs, d.tag, i).value;
      ParseKeeps(specs, s[d.header + d.length..], j + 1, dest[j := Stored(specs[j], s, d, dest[j])], k);
    }
  }

  lemma {:induction false} FieldsLost(specs: seq<Spec>, src: seq<seq<byte>>, dest: seq<Field>, i: nat)
    requires GoodSource(specs, src) && i <= |specs| && SoFar(specs, src, dest, i) && !Unambiguous(specs, src, i)
    requires forall k :: 0 <= k < |specs| ==> !specs[k].skip
    ensures SizesFit(specs, src) && |dest| == |specs|
    ensures Parse(specs, FieldsBytes(specs, src, i), i, dest) != Ok(AllRecovered(specs, src))
    decreases |specs| - i
  {
    hide Recovered, FieldsBytes, GoodSource, SoFar, Parse, GoodItem, Gap, AllOptional, Unambiguous, FirstMatch, TagIn,
      SizesFit, Omitted, AllRecovered;
    SoFarSize(specs, src, dest, i);
    var j := NextPresent(specs, src, i);
    SomePresent(specs, src, i, j);
    UnambiguousAfter(specs, src, i, j);
    var k := FirstMatch(specs, TagIn(specs[j], src[j]), i, j);
    var x := PresentStep(specs, src, dest, i, j, k);
    if k == j {
      SoFarNext(specs, src, dest, i, j);
      FieldsLost(specs, src, dest[j := Recovered(specs[j], src[j])], j + 1);
    } else {
      ParseKeeps(specs, FieldsBytes(specs, src, j + 1), k + 1, dest[k := x], k);
      RecoveredAbsent(specs, src, k);
    }
  }

  /** Ambiguity takes an item present. */
  lemma SomePresent(specs: seq<Spec>, src: seq<seq<byte>>, i: nat, j: nat)
    requires SizesFit(specs, src) && i <= j <= |specs| && !Unambiguous(specs, src, i)
    requires forall k :: i <= k < j ==> Omitted(specs[k], src[k])
    ensures j < |specs|
  {
    hide Matches, TagIn;
  }

  lemma RecoveredAbsent(specs: seq<Spec>, src: seq<seq<byte>>, k: nat)
    requires GoodSource(specs, src) && k < |specs| && SizesFit(specs, src) && Omitted(specs[k], src[k])
    ensures |AllRecovered(specs, src)| == |specs| && AllRecovered(specs, src)[k] == Absent
  {
    AbsentFields(specs, src, k, k + 1);
  }

  /** When no item is skipped, the fields come back exactly if the absent ones cannot be mistaken. */
  lemma SequenceExact(specs: seq<Spec>, src: seq<seq<byte>>, dest: seq<Field>, rest: seq<byte>)
    requires GoodSource(specs, src) && |FieldsBytes(specs, src, 0)| < SIZE_LIMIT
    requires |dest| == |specs| && forall k :: 0 <= k < |dest| ==> dest[k] == Absent
    requires forall k :: 0 <= k < |specs| ==> !specs[k].skip
    ensures ParseSequence(specs, SequenceBytes(CONSTR_SEQUENCE, specs, src) + rest, dest) == Ok(AllRecovered(specs, src))
            <==> Unambiguous(specs, src, 0)
  {
    hide Decode, Recovered, Unambiguous, FieldsBytes, AllRecovered;
    if Unambiguous(specs, src, 0) {
      SequenceRoundTrip(specs, src, dest, rest);
    } else {
      ItemRoundTrip(CONSTR_SEQUENCE, FieldsBytes(specs, src, 0), rest);
      FieldsLost(specs, src, dest, 0);
    }
  }
}
