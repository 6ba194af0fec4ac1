/**
 * The kernel's data object (DataObject.cpp): a set of attributes, a metadata
 * header that is built up byte by byte by `putData` until the closing
 * `</haggle>` tag, a payload length and file, the payload verification state,
 * and a retriever that serves the header and then the payload.
 *
 * DataObject.h, Attribute.h, the XML metadata classes, SHA1 and base64 are not
 * part of this model. The XML parse of a finished header is a parameter that
 * yields the fields the kernel reads out of it (or nothing, when the header is
 * not a Haggle header); the SHA1 digest of the payload file is a parameter of
 * the verification; the data object's id is kept as the attribute list it was
 * last computed from. Files are byte sequences, and which file paths exist is a
 * set of paths.
 */
module DataObject {
  import opened Wrappers
  import Decimal

  /** A byte of a header, payload or id. */
  type Byte = b: int | 0 <= b < 256

  // ---------------------------------------------------------------------------
  // Attributes

  /** An attribute: a name, a value and a weight. Two attributes are the same
   *  attribute when name and value agree. */
  datatype Attribute = Attribute(name: string, value: string, weight: nat)

  predicate SameAttr(a: Attribute, b: Attribute)
  {
    a.name == b.name && a.value == b.value
  }

  predicate HasAttr(attrs: seq<Attribute>, a: Attribute)
  {
    exists j :: 0 <= j < |attrs| && SameAttr(attrs[j], a)
  }

  /** No attribute occurs twice. */
  predicate Distinct(attrs: seq<Attribute>)
  {
    forall i, j :: 0 <= i < j < |attrs| ==> !SameAttr(attrs[i], attrs[j])
  }

  /** The attributes that `drop` does not select, in their order. */
  function Without(attrs: seq<Attribute>, drop: Attribute -> bool): (r: seq<Attribute>)
    ensures forall x :: x in r <==> x in attrs && !drop(x)
    ensures |r| <= |attrs|
    ensures |r| == |attrs| <==> forall j :: 0 <= j < |attrs| ==> !drop(attrs[j])
  {
    if attrs == [] then []
    else
      var rest := Without(attrs[1..], drop);
      assert forall j :: 1 <= j < |attrs| ==> attrs[j] == attrs[1..][j - 1];
      if drop(attrs[0]) then rest else [attrs[0]] + rest
  }

  /** `attrs.erase(a)`: every attribute that is the same as `a`. */
  function EraseAttr(attrs: seq<Attribute>, a: Attribute): (r: seq<Attribute>)
    ensures forall x :: x in r <==> x in attrs && !SameAttr(x, a)
    ensures |r| < |attrs| <==> HasAttr(attrs, a)
  {
    Without(attrs, (x: Attribute) => SameAttr(x, a))
  }

  /** `attrs.erase(name)`: every attribute called `name`. */
  function EraseName(attrs: seq<Attribute>, name: string): (r: seq<Attribute>)
    ensures forall x :: x in r <==> x in attrs && x.name != name
    ensures |r| < |attrs| <==> exists j :: 0 <= j < |attrs| && attrs[j].name == name
  {
    Without(attrs, (x: Attribute) => x.name == name)
  }

  /** Adding an attribute that was not there and erasing it again gives the
   *  attribute list back. */
  lemma {:induction false} EraseAdded(attrs: seq<Attribute>, a: Attribute)
    requires !HasAttr(attrs, a)
    ensures EraseAttr(attrs + [a], a) == attrs
    decreases |attrs|
  {
    if attrs != [] {
      assert !HasAttr(attrs[1..], a) by {
        assert forall j :: 1 <= j < |attrs| ==> attrs[j] == attrs[1..][j - 1];
      }
      EraseAdded(attrs[1..], a);
      assert (attrs + [a])[1..] == attrs[1..] + [a];
      assert !SameAttr(attrs[0], a);
    }
  }

  // ---------------------------------------------------------------------------
  // Weight and persistence in the metadata

  /** How `toMetadata` writes a weight: only a weight other than 1 is written. */
  function EncodeWeight(w: nat): (p: Option<string>)
    ensures p.None? <==> w == 1
  {
    if w != 1 then Some(Decimal.Format(w)) else None
  }

  /** How `parseMetadata` reads a weight: `strtoul` of the text, 1 when there
   *  is none. */
  function DecodeWeight(p: Option<string>): (w: nat)
    ensures p.None? ==> w == 1
    ensures p.Some? ==> w == Decimal.Parse(p.value)
  {
    if p.Some? then Decimal.Parse(p.value) else 1
  }

  lemma WeightRoundTrip(w: nat)
    requires w <= Decimal.ULongMax
    ensures DecodeWeight(EncodeWeight(w)) == w
  {
    if w != 1 {
      Decimal.ParseFormat(w);
    }
  }

  /** How `toMetadata` writes persistence. */
  function EncodePersistent(persistent: bool): (p: string)
    ensures p == "yes" || p == "no"
    ensures p == "no" <==> !persistent
  {
    if persistent then "yes" else "no"
  }

  /** How `parseMetadata` reads persistence: only "no" makes the object
   *  non-persistent; without the parameter the old value stays. */
  function DecodePersistent(p: Option<string>, current: bool): (persistent: bool)
    ensures p.None? ==> persistent == current
    ensures p.Some? ==> (persistent <==> p.value != "no")
  {
    if p.Some? then p.value != "no" else current
  }

  lemma PersistentRoundTrip(persistent: bool, current: bool)
    ensures DecodePersistent(Some(EncodePersistent(persistent)), current) == persistent
  {
  }

  // ---------------------------------------------------------------------------
  // The metadata header, as the fields the kernel reads and writes

  /** An `<Attribute>` element: its name parameter, content and weight
   *  parameter. */
  datatype AttrEntry = AttrEntry(name: string, content: string, weight: Option<string>)

  /** The parts of a Haggle metadata header that the data object reads: the
   *  persistence parameter, the data length parameter of the `<Data>`
   *  element, the decoded file hash when one is present and decodes, and the
   *  attribute elements in document order. */
  datatype Header = Header(
    persistentParam: Option<string>,
    dataLenParam: Option<string>,
    fileHash: Option<seq<Byte>>,
    attributes: seq<AttrEntry>)

  function DecodeAttr(e: AttrEntry): (a: Attribute)
    ensures a.name == e.name && a.value == e.content && a.weight == DecodeWeight(e.weight)
  {
    Attribute(e.name, e.content, DecodeWeight(e.weight))
  }

  function EncodeAttr(a: Attribute): (e: AttrEntry)
    ensures e.name == a.name && e.content == a.value && e.weight == EncodeWeight(a.weight)
  {
    AttrEntry(a.name, a.value, EncodeWeight(a.weight))
  }

  lemma AttrRoundTrip(a: Attribute)
    requires a.weight <= Decimal.ULongMax
    ensures DecodeAttr(EncodeAttr(a)) == a
  {
    WeightRoundTrip(a.weight);
  }

  function EncodeAttrs(attrs: seq<Attribute>): (es: seq<AttrEntry>)
    ensures |es| == |attrs|
    ensures forall j :: 0 <= j < |attrs| ==> es[j] == EncodeAttr(attrs[j])
  {
    if attrs == [] then [] else [EncodeAttr(attrs[0])] + EncodeAttrs(attrs[1..])
  }

  /** The attribute loop of `parseMetadata`: each element's attribute is added
   *  unless the same attribute is already present. */
  function MergeAttrs(attrs: seq<Attribute>, es: seq<AttrEntry>): (r: seq<Attribute>)
    ensures forall x :: x in attrs ==> x in r
    ensures forall j :: 0 <= j < |es| ==> HasAttr(r, DecodeAttr(es[j]))
    decreases |es|
  {
    if es == [] then attrs
    else
      var prev := MergeAttrs(attrs, es[..|es| - 1]);
      var a := DecodeAttr(es[|es| - 1]);
      assert forall j :: 0 <= j < |es| - 1 ==> es[j] == es[..|es| - 1][j];
      var r := if HasAttr(prev, a) then prev else prev + [a];
      assert HasAttr(r, a) by {
        if !HasAttr(prev, a) {
          assert SameAttr(r[|prev|], a);
        }
      }
      assert forall b :: HasAttr(prev, b) ==> HasAttr(r, b) by {
        forall b | HasAttr(prev, b) ensures HasAttr(r, b) {
          var j :| 0 <= j < |prev| && SameAttr(prev[j], b);
          assert r[j] == prev[j];
        }
      }
      r
  }

  /** The attribute loop of `parseMetadata`, over the elements in document
   *  order. */
  method AddParsedAttrs(attrs: seq<Attribute>, es: seq<AttrEntry>) returns (merged: seq<Attribute>)
    ensures merged == MergeAttrs(attrs, es)
  {
    merged := attrs;
    var k := 0;
    while k < |es|
      invariant 0 <= k <= |es|
      invariant merged == MergeAttrs(attrs, es[..k])
    {
      MergeAttrsStep(attrs, es, k);
      var a := DecodeAttr(es[k]);
      if !HasAttr(merged, a) {
        merged := merged + [a];
      }
      k := k + 1;
    }
    assert es[..|es|] == es;
  }

  lemma MergeAttrsStep(attrs: seq<Attribute>, es: seq<AttrEntry>, k: nat)
    requires k < |es|
    ensures var prev := MergeAttrs(attrs, es[..k]);
      MergeAttrs(attrs, es[..k + 1])
      == if HasAttr(prev, DecodeAttr(es[k])) then prev else prev + [DecodeAttr(es[k])]
  {
    assert es[..k + 1][..k] == es[..k];
  }

  /** The weights are `unsigned long` values in the source. */
  predicate WeightsFit(attrs: seq<Attribute>)
  {
    forall a :: a in attrs ==> a.weight <= Decimal.ULongMax
  }

  /** Parsing the attribute elements that `toMetadata` writes for a list of
   *  distinct attributes gives that list back, weights included. */
  lemma {:induction false} AttrsRoundTrip(attrs: seq<Attribute>)
    requires Distinct(attrs) && WeightsFit(attrs)
    ensures MergeAttrs([], EncodeAttrs(attrs)) == attrs
    decreases |attrs|
  {
    if attrs != [] {
      var n := |attrs|;
      var init, last := attrs[..n - 1], attrs[n - 1];
      assert init + [last] == attrs;
      var es := EncodeAttrs(attrs);
      LastOfDistinct(attrs);
      EncodeAttrsPrefix(attrs);
      AttrsRoundTrip(init);
      AttrRoundTrip(last);
      MergeNewAttr(es, init, last);
    }
  }

  /** Dropping the last attribute keeps the rest distinct, and the last one
   *  is not among them. */
  lemma LastOfDistinct(attrs: seq<Attribute>)
    requires attrs != [] && Distinct(attrs)
    ensures Distinct(attrs[..|attrs| - 1]) && !HasAttr(attrs[..|attrs| - 1], attrs[|attrs| - 1])
  {
    var init := attrs[..|attrs| - 1];
    forall i, j | 0 <= i < j < |init| ensures !SameAttr(init[i], init[j]) {
      assert init[i] == attrs[i] && init[j] == attrs[j];
    }
    forall j | 0 <= j < |init| ensures !SameAttr(init[j], attrs[|attrs| - 1]) {
      assert init[j] == attrs[j];
    }
  }

  lemma EncodeAttrsPrefix(attrs: seq<Attribute>)
    requires attrs != []
    ensures EncodeAttrs(attrs)[..|attrs| - 1] == EncodeAttrs(attrs[..|attrs| - 1])
    ensures EncodeAttrs(attrs)[|attrs| - 1] == EncodeAttr(attrs[|attrs| - 1])
  {
  }

  /** An element whose attribute is not yet present is appended. */
  lemma MergeNewAttr(es: seq<AttrEntry>, init: seq<Attribute>, last: Attribute)
    requires es != [] && MergeAttrs([], es[..|es| - 1]) == init
    requires DecodeAttr(es[|es| - 1]) == last && !HasAttr(init, last)
    ensures MergeAttrs([], es) == init + [last]
  {
  }

  /** The state `parseMetadata` reads and writes. */
  datatype Fields = Fields(
    persistent: bool,
    dataLen: nat,
    dataState: DataState,
    hasDataHash: bool,
    dataHash: seq<Byte>,
    attrs: seq<Attribute>)

  /** `DataState_t`. */
  datatype DataState = NoData | NotVerified | VerifiedOk | VerifiedBad

  /** `setDataLen`: a positive length makes the data unverified. */
  function WithDataLen(f: Fields, len: nat): (g: Fields)
    ensures g.dataLen == len
    ensures g.dataState == if len > 0 then NotVerified else f.dataState
    ensures g.persistent == f.persistent && g.attrs == f.attrs
    ensures g.hasDataHash == f.hasDataHash && g.dataHash == f.dataHash
  {
    f.(dataLen := len, dataState := if len > 0 then NotVerified else f.dataState)
  }

  /** What `parseMetadata` makes of the fields (the file name and path, the
   *  node-description flag and the signature parts aside). */
  function Parsed(f: Fields, h: Header): (g: Fields)
    ensures g.persistent == DecodePersistent(h.persistentParam, f.persistent)
    ensures g.dataLen == if h.dataLenParam.Some? then Decimal.Parse(h.dataLenParam.value) else f.dataLen
    ensures g.hasDataHash == (f.hasDataHash || h.fileHash.Some?)
    ensures g.dataHash == if h.fileHash.Some? then h.fileHash.value else f.dataHash
    ensures h.fileHash.Some? ==> g.dataState == NotVerified
    ensures g.attrs == MergeAttrs(f.attrs, h.attributes)
  {
    var f1 := f.(persistent := DecodePersistent(h.persistentParam, f.persistent));
    var f2 := if h.dataLenParam.Some? then WithDataLen(f1, Decimal.Parse(h.dataLenParam.value)) else f1;
    var f3 := if h.fileHash.Some? then f2.(hasDataHash := true, dataHash := h.fileHash.value, dataState := NotVerified) else f2;
    f3.(attrs := MergeAttrs(f3.attrs, h.attributes))
  }

  /** What `toMetadata` writes: persistence always, the data length only when
   *  there is data and a file name, the file hash when there is one, and one
   *  element per attribute. */
  function Encoded(f: Fields, filename: string): (h: Header)
    ensures h.persistentParam == Some(EncodePersistent(f.persistent))
    ensures h.dataLenParam.Some? <==> f.dataLen > 0 && filename != []
    ensures h.fileHash.Some? <==> f.hasDataHash
    ensures h.attributes == EncodeAttrs(f.attrs)
  {
    Header(
      Some(EncodePersistent(f.persistent)),
      if f.dataLen > 0 && filename != [] then Some(Decimal.Format(f.dataLen)) else None,
      if f.hasDataHash then Some(f.dataHash) else None,
      EncodeAttrs(f.attrs))
  }

  /** A header written by `toMetadata` and parsed into a fresh data object
   *  gives back the persistence, the attributes with their weights, the file
   *  hash and, when there is a file name, the data length. */
  lemma MetadataRoundTrip(f: Fields, filename: string, blank: Fields)
    requires Distinct(f.attrs) && WeightsFit(f.attrs) && f.dataLen <= Decimal.ULongMax
    requires blank.attrs == [] && blank.dataLen == 0 && !blank.hasDataHash
    ensures var g := Parsed(blank, Encoded(f, filename));
      g.persistent == f.persistent && g.attrs == f.attrs
      && g.hasDataHash == f.hasDataHash && (f.hasDataHash ==> g.dataHash == f.dataHash)
      && (filename != [] ==> g.dataLen == f.dataLen)
  {
    AttrsRoundTrip(f.attrs);
    Decimal.ParseFormat(f.dataLen);
  }

  // ---------------------------------------------------------------------------
  // Payload verification

  /** `verifyData`, as (returned state, new state): no data, no hash, or an
   *  already decided verification are answered at once; otherwise the state
   *  becomes VERIFIED_BAD and turns VERIFIED_OK only when the file could be
   *  hashed (`digest`) and the digest equals the stored hash. */
  function Verify(dataLen: nat, hasDataHash: bool, state: DataState, dataHash: seq<Byte>,
                  digest: Option<seq<Byte>>): (res: (DataState, DataState))
    ensures dataLen == 0 ==> res == (NoData, state)
    ensures dataLen > 0 && !hasDataHash ==> res == (NotVerified, state)
    ensures dataLen > 0 && hasDataHash ==> res.0 == res.1 && (res.1 == VerifiedOk || res.1 == VerifiedBad)
    ensures dataLen > 0 && hasDataHash && (state == VerifiedOk || state == VerifiedBad) ==> res.1 == state
    ensures dataLen > 0 && hasDataHash && state != VerifiedOk && state != VerifiedBad ==>
      (res.1 == VerifiedOk <==> digest == Some(dataHash))
  {
    if dataLen == 0 then (NoData, state)
    else if !hasDataHash then (NotVerified, state)
    else if state == VerifiedOk || state == VerifiedBad then (state, state)
    else if digest == Some(dataHash) then (VerifiedOk, VerifiedOk)
    else (VerifiedBad, VerifiedBad)
  }

  /** Once verified, a data object stays verified the same way: a second
   *  `verifyData` returns the first answer whatever the file holds now. */
  lemma VerifyIsFinal(dataLen: nat, hasDataHash: bool, state: DataState, dataHash: seq<Byte>,
                      digest: Option<seq<Byte>>, later: Option<seq<Byte>>)
    requires dataLen > 0 && hasDataHash
    ensures var first := Verify(dataLen, hasDataHash, state, dataHash, digest);
      Verify(dataLen, hasDataHash, first.1, dataHash, later) == first
  {
  }

  // ---------------------------------------------------------------------------
  // The id string

  /** The lowercase hexadecimal digit of a value below 16. */
  function HexDigit(d: nat): (c: char)
    requires d < 16
    ensures ('0' <= c <= '9') || ('a' <= c <= 'f')
  {
    if d < 10 then ('0' as int + d) as char else ('a' as int + d - 10) as char
  }

  predicate IsHexDigit(c: char)
  {
    ('0' <= c <= '9') || ('a' <= c <= 'f')
  }

  function HexValue(c: char): (d: nat)
    requires IsHexDigit(c)
    ensures d < 16
  {
    if c <= '9' then c as int - '0' as int else c as int - 'a' as int + 10
  }

  /** `%02x` of one byte. */
  function HexByte(b: Byte): (s: string)
    ensures |s| == 2 && IsHexDigit(s[0]) && IsHexDigit(s[1])
  {
    [HexDigit(b / 16), HexDigit(b % 16)]
  }

  lemma HexByteValue(b: Byte)
    ensures 16 * HexValue(HexByte(b)[0]) + HexValue(HexByte(b)[1]) == b
  {
    assert HexValue(HexDigit(b / 16)) == b / 16;
    assert HexValue(HexDigit(b % 16)) == b % 16;
  }

  /** The id rendered as two lowercase hex digits per byte. */
  function Hex(id: seq<Byte>): (s: string)
    ensures |s| == 2 * |id|
    ensures forall k :: 0 <= k < |s| ==> IsHexDigit(s[k])
  {
    if id == [] then [] else Hex(id[..|id| - 1]) + HexByte(id[|id| - 1])
  }

  /** Reads an id string back, two hex digits per byte. */
  function Unhex(s: string): (id: seq<Byte>)
    requires |s| % 2 == 0 && forall k :: 0 <= k < |s| ==> IsHexDigit(s[k])
    ensures |id| * 2 == |s|
  {
    seq(|s| / 2, i requires 0 <= i < |s| / 2 => 16 * HexValue(s[2 * i]) + HexValue(s[2 * i + 1]))
  }

  /** The two digits of byte i of an id sit at positions 2i and 2i+1 of its
   *  hex string. */
  lemma {:induction false} HexAt(id: seq<Byte>, i: nat)
    requires i < |id|
    ensures Hex(id)[2 * i] == HexByte(id[i])[0] && Hex(id)[2 * i + 1] == HexByte(id[i])[1]
    decreases |id|
  {
    if i < |id| - 1 {
      HexAt(id[..|id| - 1], i);
      assert id[..|id| - 1][i] == id[i];
    }
  }

  lemma UnhexHex(id: seq<Byte>)
    ensures Unhex(Hex(id)) == id
  {
    forall i | 0 <= i < |id|
      ensures Unhex(Hex(id))[i] == id[i]
    {
      HexAt(id, i);
      HexByteValue(id[i]);
    }
  }

  /** `calcIdStr`: one `%02x` per id byte, appended in order. */
  method CalcIdStr(id: seq<Byte>) returns (idStr: string)
    ensures idStr == Hex(id)
  {
    idStr := "";
    var i := 0;
    while i < |id|
      invariant 0 <= i <= |id|
      invariant idStr == Hex(id[..i])
    {
      assert id[..i + 1][..i] == id[..i];
      idStr := idStr + HexByte(id[i]);
      i := i + 1;
    }
    assert id[..|id|] == id;
  }

  /** `operator==`: two data objects are equal when their id strings are. */
  predicate SameObject(idA: seq<Byte>, idB: seq<Byte>)
  {
    Hex(idA) == Hex(idB)
  }

  /** Comparing id strings is comparing ids. */
  lemma SameObjectIffSameId(idA: seq<Byte>, idB: seq<Byte>)
    ensures SameObject(idA, idB) <==> idA == idB
  {
    UnhexHex(idA);
    UnhexHex(idB);
  }

  // ---------------------------------------------------------------------------
  // The end of the header

  const LessThan: Byte := 0x3C
  const Slash: Byte := 0x2F
  const GreaterThan: Byte := 0x3E

  /** The byte is the given upper-case ASCII letter or its lower-case form. */
  predicate Letter(b: Byte, upper: Byte)
  {
    b == upper || b == upper + 0x20
  }

  /** The last nine bytes are `</haggle>`, letters in either case. */
  predicate EndsWithTag(h: seq<Byte>)
  {
    var n := |h|;
    n >= 9 && h[n - 9] == LessThan && h[n - 8] == Slash
    && Letter(h[n - 7], 0x48) && Letter(h[n - 6], 0x41) && Letter(h[n - 5], 0x47)
    && Letter(h[n - 4], 0x47) && Letter(h[n - 3], 0x4C) && Letter(h[n - 2], 0x45)
    && h[n - 1] == GreaterThan
  }

  /** No non-empty prefix of h ends with the tag. */
  predicate NoTag(h: seq<Byte>)
  {
    h == [] || (!EndsWithTag(h) && NoTag(h[..|h| - 1]))
  }

  /** h ends with the tag for the first time at its last byte. */
  predicate TagFirstAtEnd(h: seq<Byte>)
  {
    h != [] && EndsWithTag(h) && NoTag(h[..|h| - 1])
  }

  /** Taking bytes none of which completes the tag keeps a header free of it. */
  lemma {:induction false} NoTagExtend(h: seq<Byte>, data: seq<Byte>, m: nat)
    requires m <= |data|
    requires NoTag(h)
    requires forall j :: 1 <= j <= m ==> !EndsWithTag(h + data[..j])
    ensures NoTag(h + data[..m])
    decreases m
  {
    if m > 0 {
      NoTagExtend(h, data, m - 1);
      assert (h + data[..m])[..|h| + m - 1] == h + data[..m - 1];
    } else {
      assert h + data[..0] == h;
    }
  }

  // ---------------------------------------------------------------------------
  // Trimming the header for retrieval

  datatype TrimError = ReadBeforeStart

  /** The trim loop of the retriever as written: the byte before the current
   *  end is read before the length is tested, so a header without '>' makes
   *  the loop read the byte before the buffer. */
  function TrimAsWritten(h: seq<Byte>, n: nat): (r: Result<nat, TrimError>)
    requires n <= |h|
    ensures r.Ok? ==> 0 < r.value <= n && h[r.value - 1] == GreaterThan
  {
    if n == 0 then Err(ReadBeforeStart)
    else if h[n - 1] == GreaterThan then Ok(n)
    else TrimAsWritten(h, n - 1)
  }

  /** The trim with the length tested first: the header up to and including
   *  its last '>', or nothing. */
  function TrimHeader(h: seq<Byte>, n: nat): (k: nat)
    requires n <= |h|
    ensures k <= n
    ensures k > 0 ==> h[k - 1] == GreaterThan
    ensures forall j :: k <= j < n ==> h[j] != GreaterThan
  {
    if n == 0 || h[n - 1] == GreaterThan then n else TrimHeader(h, n - 1)
  }

  /** The trim as written goes wrong exactly for headers without '>', and
   *  agrees with the corrected trim on every other header. */
  lemma {:induction false} TrimReadsBeforeStart(h: seq<Byte>, n: nat)
    requires n <= |h|
    ensures TrimAsWritten(h, n).Err? <==> forall j :: 0 <= j < n ==> h[j] != GreaterThan
    ensures TrimAsWritten(h, n).Ok? ==> TrimAsWritten(h, n).value == TrimHeader(h, n)
    decreases n
  {
    if n > 0 && h[n - 1] != GreaterThan {
      TrimReadsBeforeStart(h, n - 1);
    }
  }

  /** A three-byte header "abc" sends the loop as written past the start. */
  lemma TrimWithoutCloseAngle()
    ensures TrimAsWritten([0x61, 0x62, 0x63], 3) == Err(ReadBeforeStart)
    ensures TrimHeader([0x61, 0x62, 0x63], 3) == 0
  {
  }

  // ---------------------------------------------------------------------------
  // File paths

  /** The first path `createFilePath` tries. */
  function BasePath(storage: string, delim: string, fileName: string): string
  {
    storage + delim + fileName
  }

  /** The i-th alternative path, `%s%s%ld-%s`. */
  function NumberedPath(storage: string, delim: string, fileName: string, i: nat): string
  {
    storage + delim + Decimal.Format(i) + "-" + fileName
  }

  lemma NumberedInjective(storage: string, delim: string, fileName: string, i: nat, j: nat)
    requires NumberedPath(storage, delim, fileName, i) == NumberedPath(storage, delim, fileName, j)
    ensures i == j
  {
    var p := storage + delim;
    var a := NumberedPath(storage, delim, fileName, i);
    var fi := Decimal.Format(i);
    var fj := Decimal.Format(j);
    assert a == p + fi + "-" + fileName;
    assert |fi| == |fj|;
    assert fi == a[|p|..|p| + |fi|];
    assert fj == NumberedPath(storage, delim, fileName, j)[|p|..|p| + |fj|];
    Decimal.FormatInjective(i, j);
  }

  /** The numbered paths 1 .. i-1. */
  function NumberedUpTo(storage: string, delim: string, fileName: string, i: nat): (ps: set<string>)
    ensures forall j :: 1 <= j < i ==> NumberedPath(storage, delim, fileName, j) in ps
  {
    if i <= 1 then {} else NumberedUpTo(storage, delim, fileName, i - 1) + {NumberedPath(storage, delim, fileName, i - 1)}
  }

  lemma NotYetNumbered(storage: string, delim: string, fileName: string, i: nat)
    ensures NumberedPath(storage, delim, fileName, i) !in NumberedUpTo(storage, delim, fileName, i)
  {
    ForeignNumbered(storage, delim, fileName, i, i);
  }

  /** A path numbered i or more is not among the paths numbered below k <= i. */
  lemma {:induction false} ForeignNumbered(storage: string, delim: string, fileName: string, i: nat, k: nat)
    requires k <= i
    ensures NumberedPath(storage, delim, fileName, i) !in NumberedUpTo(storage, delim, fileName, k)
    decreases k
  {
    if k > 1 {
      ForeignNumbered(storage, delim, fileName, i, k - 1);
      if NumberedPath(storage, delim, fileName, i) == NumberedPath(storage, delim, fileName, k - 1) {
        NumberedInjective(storage, delim, fileName, i, k - 1);
      }
    }
  }

  // ---------------------------------------------------------------------------
  // The number of bytes `putData` reports

  /** The count `putData` returns as written: once payload bytes are written
   *  in the same call, `putLen` is overwritten with their number, so the
   *  header bytes taken by that call are no longer counted. */
  /** The bytes a `putData` call takes for the header and then for the
   *  payload together extend the received stream (and, when the metadata
   *  was already there, the file) by one prefix of the buffer. */
  lemma TakenInTwo(received: seq<Byte>, file: seq<Byte>, received0: seq<Byte>, file0: seq<Byte>,
                   data: seq<Byte>, i: nat, w: nat, hadMetadata: bool)
    requires i + w <= |data| && received0 == received + data[..i]
    requires hadMetadata ==> i == 0 && file0 == file
    ensures received0 + data[i..i + w] == received + data[..i + w]
    ensures hadMetadata ==> file0 + data[i..i + w] == file + data[..i + w]
  {
    assert data[..i] + data[i..i + w] == data[..i + w];
  }

  function PutCountAsWritten(headerTaken: nat, payloadWritten: nat): (n: nat)
  {
    if payloadWritten > 0 then payloadWritten else headerTaken
  }

  /** The count of every byte taken from the caller's buffer. */
  function PutCount(headerTaken: nat, payloadWritten: nat): (n: nat)
    ensures n >= headerTaken && n >= payloadWritten
    ensures n - headerTaken == payloadWritten
  {
    headerTaken + payloadWritten
  }

  /** A call that finishes the header and writes payload in one go reports
   *  fewer bytes than it took. */
  lemma PutCountLosesHeader(headerTaken: nat, payloadWritten: nat)
    requires headerTaken > 0 && payloadWritten > 0
    ensures PutCountAsWritten(headerTaken, payloadWritten) < headerTaken + payloadWritten
    ensures PutCount(headerTaken, payloadWritten) == headerTaken + payloadWritten
  {
  }

  /** What `putData` stores through `remaining`. */
  datatype Remaining = MetadataPending | Left(n: nat)

  // ---------------------------------------------------------------------------
  // The data object

  class DataObject {
    var attrs: seq<Attribute>
    /** The attributes the id was last computed from (`calcId`). */
    var idFrom: seq<Attribute>
    var persistent: bool
    var dataLen: nat
    var dynamicDataLen: bool
    var dataState: DataState
    var hasDataHash: bool
    var dataHash: seq<Byte>
    /** Whether `metadata` is set. */
    var hasMetadata: bool
    var storagePath: string
    var fileName: string
    var filePath: string
    /** The `putData_data` record: whether it exists, the header collected so
     *  far, whether the payload file is open, and the payload bytes still
     *  expected. */
    var building: bool
    var header: seq<Byte>
    var fileOpen: bool
    var bytesLeft: nat
    /** The payload bytes written to the file. */
    var file: seq<Byte>
    /** Every byte `putData` has taken, and the complete header among them. */
    ghost var received: seq<Byte>
    ghost var headerText: seq<Byte>

    /** The fields `parseMetadata` reads and writes. */
    function State(): (f: Fields)
      reads this
      ensures f.attrs == attrs && f.persistent == persistent && f.dataLen == dataLen
    {
      Fields(persistent, dataLen, dataState, hasDataHash, dataHash, attrs)
    }

    /** While the object is built, the bytes taken are the header up to the
     *  first `</haggle>` and then the payload, which never exceeds the data
     *  length. */
    ghost predicate Valid()
      reads this
    {
      building ==>
        (!hasMetadata ==> received == header && NoTag(header) && !fileOpen && file == [])
        && (hasMetadata ==>
              header == [] && fileOpen && received == headerText + file
              && TagFirstAtEnd(headerText) && |file| + bytesLeft == dataLen && bytesLeft > 0)
    }

    /** The data object a protocol receives into: no metadata yet and an empty
     *  `putData_data` record. */
    constructor (storagePath: string)
      ensures Valid() && building && !hasMetadata && header == [] && received == []
      ensures attrs == [] && persistent && dataLen == 0 && dataState == NoData && !hasDataHash
      ensures this.storagePath == storagePath && fileName == [] && filePath == []
    {
      attrs := [];
      idFrom := [];
      persistent := true;
      dataLen := 0;
      dynamicDataLen := false;
      dataState := NoData;
      hasDataHash := false;
      dataHash := [];
      hasMetadata := false;
      this.storagePath := storagePath;
      fileName := [];
      filePath := [];
      building := true;
      header := [];
      fileOpen := false;
      bytesLeft := 0;
      file := [];
      received := [];
      headerText := [];
    }

    predicate HasAttribute(a: Attribute)
      reads this
    {
      HasAttr(attrs, a)
    }

    /** `addAttribute`: false and no change when the attribute is present;
     *  otherwise it is added and the id recomputed. */
    method AddAttribute(a: Attribute) returns (added: bool)
      modifies this`attrs, this`idFrom
      ensures HasAttr(old(attrs), a) ==> !added && attrs == old(attrs) && idFrom == old(idFrom)
      ensures !HasAttr(old(attrs), a) ==> added && attrs == old(attrs) + [a] && idFrom == attrs
      ensures HasAttr(attrs, a)
    {
      if HasAttr(attrs, a) {
        return false;
      }
      attrs := attrs + [a];
      assert SameAttr(attrs[|attrs| - 1], a);
      idFrom := attrs;
      return true;
    }

    /** `removeAttribute(a)`: erases the attribute and returns how many were
     *  erased; the id is recomputed only when that is not zero. */
    method RemoveAttribute(a: Attribute) returns (n: nat)
      modifies this`attrs, this`idFrom
      ensures attrs == EraseAttr(old(attrs), a) && n == |old(attrs)| - |attrs|
      ensures n > 0 <==> HasAttr(old(attrs), a)
      ensures n > 0 ==> idFrom == attrs
      ensures n == 0 ==> idFrom == old(idFrom)
    {
      var before := attrs;
      attrs := EraseAttr(attrs, a);
      n := |before| - |attrs|;
      if n > 0 {
        idFrom := attrs;
      }
    }

    /** `removeAttribute(name, value)`: the value "*" erases every attribute
     *  of that name; any other value erases that one attribute. */
    method RemoveAttributeNamed(name: string, value: string) returns (n: nat)
      modifies this`attrs, this`idFrom
      ensures value == "*" ==> attrs == EraseName(old(attrs), name)
      ensures value != "*" ==> attrs == EraseAttr(old(attrs), Attribute(name, value, 1))
      ensures forall x :: x in attrs ==> x in old(attrs)
      ensures value == "*" ==> forall x :: x in attrs ==> x.name != name
      ensures n == |old(attrs)| - |attrs|
      ensures n > 0 ==> idFrom == attrs
      ensures n == 0 ==> idFrom == old(idFrom)
    {
      var before := attrs;
      if value == "*" {
        attrs := EraseName(attrs, name);
      } else {
        attrs := EraseAttr(attrs, Attribute(name, value, 1));
      }
      n := |before| - |attrs|;
      if n > 0 {
        idFrom := attrs;
      }
    }

    /** `setDataLen`. */
    method SetDataLen(len: nat)
      modifies this`dataLen, this`dataState
      ensures State() == WithDataLen(old(State()), len)
    {
      dataLen := len;
      if dataLen > 0 {
        dataState := NotVerified;
      }
    }

    /** `verifyData`, with the SHA1 digest of the payload file as a parameter
     *  (None when the buffer, the file or a read fails). */
    method VerifyData(digest: Option<seq<Byte>>) returns (r: DataState)
      modifies this`dataState
      ensures (r, dataState) == Verify(dataLen, hasDataHash, old(dataState), dataHash, digest)
    {
      if dataLen == 0 {
        return NoData;
      }
      if !hasDataHash {
        return NotVerified;
      }
      if dataState == VerifiedOk || dataState == VerifiedBad {
        return dataState;
      }
      dataState := VerifiedBad;
      if digest.None? {
        return dataState;
      }
      if digest.value != dataHash {
        return dataState;
      }
      dataState := VerifiedOk;
      return dataState;
    }

    /** `parseMetadata` on the fields of the header: -1 without metadata;
     *  otherwise persistence, data length, file hash and attributes are read
     *  and the id recomputed. */
    method ParseMetadata(h: Header) returns (r: int)
      modifies this`persistent, this`dataLen, this`dataState, this`hasDataHash, this`dataHash,
               this`attrs, this`idFrom
      ensures !hasMetadata ==> r == -1 && State() == old(State()) && idFrom == old(idFrom)
      ensures hasMetadata ==> r == 0 && State() == Parsed(old(State()), h) && idFrom == attrs
    {
      if !hasMetadata {
        return -1;
      }
      if h.persistentParam.Some? {
        persistent := h.persistentParam.value != "no";
      }
      if h.dataLenParam.Some? {
        SetDataLen(Decimal.Parse(h.dataLenParam.value));
      }
      if h.fileHash.Some? {
        dataHash := h.fileHash.value;
        hasDataHash := true;
        dataState := NotVerified;
      }
      attrs := AddParsedAttrs(attrs, h.attributes);
      idFrom := attrs;
      return 0;
    }

    /** `toMetadata`: nothing without metadata; otherwise the fields it
     *  writes into the header. */
    function ToMetadata(): (h: Option<Header>)
      reads this
      ensures h.Some? <==> hasMetadata
      ensures h.Some? ==> h.value.persistentParam == Some(EncodePersistent(persistent))
      ensures h.Some? ==> h.value.attributes == EncodeAttrs(attrs)
    {
      if hasMetadata then Some(Encoded(State(), fileName)) else None
    }

    /** `createFilePath`: the first path that does not exist among the base
     *  path and the numbered paths 1, 2, ... */
    method CreateFilePath(delim: string, existing: set<string>)
      modifies this`filePath
      ensures filePath !in existing
      ensures BasePath(storagePath, delim, fileName) !in existing ==>
        filePath == BasePath(storagePath, delim, fileName)
      ensures BasePath(storagePath, delim, fileName) in existing ==>
        exists k :: k >= 1 && filePath == NumberedPath(storagePath, delim, fileName, k)
          && forall j :: 1 <= j < k ==> NumberedPath(storagePath, delim, fileName, j) in existing
    {
      var i: nat := 0;
      var path := BasePath(storagePath, delim, fileName);
      ghost var seen: set<string> := {};
      while path in existing
        invariant i == 0 ==> path == BasePath(storagePath, delim, fileName)
        invariant i > 0 ==> path == NumberedPath(storagePath, delim, fileName, i)
        invariant i > 0 ==> BasePath(storagePath, delim, fileName) in existing
        invariant forall j :: 1 <= j < i ==> NumberedPath(storagePath, delim, fileName, j) in existing
        invariant seen == NumberedUpTo(storagePath, delim, fileName, i) && seen <= existing
        decreases |existing - seen| + (if i == 0 then 1 else 0)
      {
        if i > 0 {
          NotYetNumbered(storagePath, delim, fileName, i);
          assert existing - (seen + {path}) == (existing - seen) - {path};
          seen := seen + {path};
        }
        i := i + 1;
        path := NumberedPath(storagePath, delim, fileName, i);
      }
      filePath := path;
    }

    /** The byte loop of `putData`: header bytes are taken one at a time until
     *  the header ends with `</haggle>` or the buffer is used up. */
    method TakeHeader(data: seq<Byte>) returns (k: nat, done: bool)
      requires |data| > 0
      modifies this`header
      ensures 0 < k <= |data| && header == old(header) + data[..k]
      ensures done <==> EndsWithTag(header)
      ensures !done ==> k == |data|
      ensures forall j :: 1 <= j < k ==> !EndsWithTag(old(header) + data[..j])
    {
      var h := header;
      k := 0;
      done := false;
      while k < |data| && !done
        invariant 0 <= k <= |data|
        invariant h == old(header) + data[..k]
        invariant k > 0 ==> (done <==> EndsWithTag(h))
        invariant k == 0 ==> !done
        invariant forall j :: 1 <= j < k ==> !EndsWithTag(old(header) + data[..j])
      {
        assert data[..k + 1] == data[..k] + [data[k]];
        h := h + [data[k]];
        k := k + 1;
        done := |h| >= 9 && EndsWithTag(h);
      }
      header := h;
    }

    /** `putData`: -1 without a `remaining` pointer; 0 for an empty buffer or
     *  an object that is no longer being built. Otherwise header bytes are
     *  taken until `</haggle>` ends the header (`parse` gives its fields, or
     *  nothing for a header that is not a Haggle header), then the payload
     *  file is created and payload bytes are written, never more than the
     *  data length. `allocOk`, `openOk` and `writeOk` say whether growing the
     *  header buffer, opening the file and writing succeed. */
    method PutData(data: seq<Byte>, hasRemaining: bool, parse: seq<Byte> -> Option<Header>,
                   allocOk: bool, delim: string, existing: set<string>, openOk: bool, writeOk: bool)
      returns (r: int, remaining: Option<Remaining>)
      requires Valid()
      modifies this
      ensures Valid()
      ensures !hasRemaining ==> r == -1 && remaining.None? && unchanged(this)
      ensures hasRemaining && data == [] ==> r == 0 && remaining.None? && unchanged(this)
      ensures hasRemaining && data != [] && !old(building) ==>
        r == 0 && remaining == Some(Left(0)) && unchanged(this)
      ensures old(building) && r >= 0 ==> r <= |data| && received == old(received) + data[..r]
      ensures old(building) && old(hasMetadata) && r >= 0 ==> file == old(file) + data[..r]
      ensures old(building) && hasRemaining && data != [] && r >= 0 ==>
        (remaining == Some(MetadataPending) <==> !hasMetadata)
      ensures old(building) && !hasMetadata && r >= 0 ==> r == |data| && header == old(header) + data
      ensures old(building) && remaining.Some? && remaining.value.Left? ==>
        hasMetadata && remaining.value.n == dataLen - |file|
      ensures old(building) && !building && r >= 0 && hasRemaining && data != [] ==>
        hasMetadata && |file| == dataLen && received == headerText + file
    {
      if !hasRemaining {
        return -1, None;
      }
      if |data| == 0 {
        return 0, None;
      }
      if !building {
        return 0, Some(Left(0));
      }
      r, remaining := PutWhileBuilding(data, parse, allocOk, delim, existing, openOk, writeOk);
    }

    /** The part of `putData` that runs while the data object is being
     *  built: header bytes until the metadata parses, then payload bytes. */
    method PutWhileBuilding(data: seq<Byte>, parse: seq<Byte> -> Option<Header>,
                            allocOk: bool, delim: string, existing: set<string>, openOk: bool, writeOk: bool)
      returns (r: int, remaining: Option<Remaining>)
      requires Valid() && building && data != []
      modifies this
      ensures Valid()
      ensures r >= 0 ==> r <= |data| && received == old(received) + data[..r]
      ensures old(hasMetadata) && r >= 0 ==> file == old(file) + data[..r]
      ensures r >= 0 ==> (remaining == Some(MetadataPending) <==> !hasMetadata)
      ensures !hasMetadata && r >= 0 ==> r == |data| && header == old(header) + data
      ensures remaining.Some? && remaining.value.Left? ==> hasMetadata && remaining.value.n == dataLen - |file|
      ensures !building && r >= 0 ==> hasMetadata && |file| == dataLen && received == headerText + file
    {
      var putLen := 0;
      var i := 0;
      if !hasMetadata {
        var ok;
        ok, i := TakeAndParseHeader(data, parse, allocOk);
        if !ok {
          return -1, Some(MetadataPending);
        }
        putLen := i;
        if !hasMetadata {
          return putLen, Some(MetadataPending);
        }
      }
      ghost var received0, file0 := received, file;
      r, remaining := PutPayload(data, i, putLen, delim, existing, openOk, writeOk);
      if r >= 0 {
        TakenInTwo(old(received), old(file), received0, file0, data, i, r - i, old(hasMetadata));
      }
    }

    /** The part of `putData` that runs once the metadata is complete: the
     *  payload file is opened if it is not open yet, then payload bytes from
     *  `i` on are written, up to the bytes the payload still lacks. */
    method PutPayload(data: seq<Byte>, i: nat, putLen: nat, delim: string, existing: set<string>,
                      openOk: bool, writeOk: bool) returns (r: int, remaining: Option<Remaining>)
      requires building && hasMetadata && i <= |data| && putLen == i
      requires fileOpen ==> Valid() && i < |data|
      requires !fileOpen ==> header == [] && file == [] && received == headerText && TagFirstAtEnd(headerText)
      modifies this
      ensures Valid() && hasMetadata
      ensures r >= 0 ==> i <= r <= |data| && received == old(received) + data[i..r] && file == old(file) + data[i..r]
      ensures r >= 0 ==> remaining.Some? && remaining.value.Left?
      ensures remaining.Some? && remaining.value.Left? ==> remaining.value.n == dataLen - |file|
      ensures !building && r >= 0 ==> |file| == dataLen && received == headerText + file
    {
      remaining := Some(MetadataPending);
      if !fileOpen {
        remaining := Some(Left(dataLen));
        var status := OpenPayload(delim, existing, openOk);
        if status == 0 {
          return putLen, Some(Left(0));
        } else if status < 0 {
          return -1, remaining;
        }
      }
      if i == |data| {
        return putLen, remaining;
      }
      var w := WritePayload(data, i, writeOk);
      if w < 0 {
        return -1, remaining;
      }
      r := PutCount(putLen, w);
      remaining := Some(Left(bytesLeft));
    }

    /** Header bytes taken by `putData` are also the bytes received; a header
     *  that is not complete still holds no end tag, and a complete one holds
     *  it for the first time at its end. */
    method CollectHeader(data: seq<Byte>) returns (k: nat, done: bool)
      requires Valid() && building && !hasMetadata && |data| > 0
      modifies this`header, this`received
      ensures 0 < k <= |data| && header == old(header) + data[..k] && received == header
      ensures !done ==> k == |data| && Valid()
      ensures done ==> TagFirstAtEnd(header)
    {
      ghost var h0 := header;
      k, done := TakeHeader(data);
      received := header;
      NoTagExtend(h0, data, if done then k - 1 else k);
      if done {
        assert header[..|header| - 1] == h0 + data[..k - 1];
      }
    }

    /** The header part of `putData` on an object without metadata: -1 when
     *  the header buffer cannot grow; otherwise the header bytes are taken,
     *  and a completed header is parsed (a header that is not a Haggle header
     *  is dropped and fails the call). */
    method TakeAndParseHeader(data: seq<Byte>, parse: seq<Byte> -> Option<Header>, allocOk: bool)
      returns (ok: bool, k: nat)
      requires Valid() && building && !hasMetadata && |data| > 0
      modifies this`header, this`received, this`headerText, this`hasMetadata,
               this`persistent, this`dataLen, this`dataState, this`hasDataHash, this`dataHash,
               this`attrs, this`idFrom
      ensures !hasMetadata ==> Valid()
      ensures !ok ==> !hasMetadata && k == 0
      ensures ok ==> 0 < k <= |data| && received == old(received) + data[..k]
      ensures ok && !hasMetadata ==> k == |data| && header == old(header) + data
      ensures ok && hasMetadata ==>
        header == [] && received == headerText && TagFirstAtEnd(headerText)
    {
      if !allocOk {
        return false, 0;
      }
      var done;
      k, done := CollectHeader(data);
      if !done {
        return true, k;
      }
      var h := parse(header);
      headerText := header;
      header := [];
      if h.None? {
        received := [];
        return false, 0;
      }
      hasMetadata := true;
      var _ := ParseMetadata(h.value);
      return true, k;
    }

    /** The part of `putData` that runs once the header is complete: the
     *  payload length is taken from the data length; 0 when there is no
     *  payload (the build ends), -1 when the file cannot be opened (the build
     *  ends), 1 when the file is open for the payload. */
    method OpenPayload(delim: string, existing: set<string>, openOk: bool) returns (status: int)
      requires building && hasMetadata && !fileOpen && header == [] && file == []
      requires received == headerText && TagFirstAtEnd(headerText)
      modifies this`bytesLeft, this`building, this`header, this`fileOpen, this`filePath, this`dataState
      ensures -1 <= status <= 1
      ensures status == 0 <==> dataLen == 0
      ensures status != 1 ==> !building
      ensures status == 1 ==> Valid() && building && fileOpen && bytesLeft == dataLen
      ensures status == 1 ==> dataState == NotVerified && filePath !in existing
    {
      bytesLeft := dataLen;
      if bytesLeft == 0 {
        FreeBuild();
        return 0;
      }
      CreateFilePath(delim, existing);
      if !openOk {
        FreeBuild();
        return -1;
      }
      fileOpen := true;
      dataState := NotVerified;
      return 1;
    }

    /** The payload part of `putData`: at most the bytes still expected are
     *  written from position i on; the build ends when the last one is
     *  written or a write fails (-1). */
    method WritePayload(data: seq<Byte>, i: nat, writeOk: bool) returns (w: int)
      requires Valid() && building && hasMetadata && i < |data|
      modifies this`file, this`received, this`bytesLeft, this`building, this`header, this`fileOpen
      ensures w < 0 ==> w == -1 && !building && file == old(file) && received == old(received)
      ensures w >= 0 ==> w == (if old(bytesLeft) < |data| - i then old(bytesLeft) else |data| - i)
      ensures w >= 0 ==> file == old(file) + data[i..i + w] && received == old(received) + data[i..i + w]
      ensures w >= 0 ==> bytesLeft == old(bytesLeft) - w
      ensures w >= 0 && bytesLeft > 0 ==> building && Valid()
      ensures w >= 0 && bytesLeft == 0 ==> !building && |file| == dataLen && received == headerText + file
    {
      var len := |data| - i;
      if !writeOk {
        FreeBuild();
        return -1;
      }
      if bytesLeft > len {
        file := file + data[i..];
        received := received + data[i..];
        bytesLeft := bytesLeft - len;
        assert data[i..] == data[i..i + len];
        return len;
      }
      w := bytesLeft;
      file := file + data[i..i + w];
      received := received + data[i..i + w];
      bytesLeft := 0;
      FreeBuild();
    }

    /** `getDataObjectDataRetriever`: a payload (a positive or a dynamic data
     *  length) needs its file (`file`, None when it cannot be opened), and a
     *  dynamic length is taken from the file's size; the header is the
     *  serialized metadata (`raw`, None when it cannot be produced), trimmed
     *  after its last '>'. */
    method GetRetriever(file: Option<seq<Byte>>, raw: Option<seq<Byte>>)
      returns (r: Result<Retriever, RetrieverError>)
      modifies this`dataLen, this`dataState
      ensures (old(dataLen) > 0 || dynamicDataLen) && file.None? ==>
        r == Err(OpenFailed) && dataLen == old(dataLen) && dataState == old(dataState)
      ensures (old(dataLen) == 0 && !dynamicDataLen) || file.Some? ==>
        (r.Err? <==> !hasMetadata || raw.None?) && (r.Err? ==> r.error == NoHeader)
      ensures dynamicDataLen && file.Some? ==> State() == WithDataLen(old(State()), |file.value|)
      ensures !dynamicDataLen ==> dataLen == old(dataLen) && dataState == old(dataState)
      ensures r.Ok? ==> fresh(r.value) && r.value.Valid() && r.value.sent == []
      ensures r.Ok? ==>
        r.value.header == raw.value[..TrimHeader(raw.value, |raw.value|)] && r.value.headerLeft == |r.value.header|
      ensures r.Ok? ==> (r.value.fileOpen <==> old(dataLen) > 0 || dynamicDataLen)
      ensures r.Ok? && r.value.fileOpen ==> r.value.fileAll == file.value && r.value.bytesLeft == dataLen
    {
      var payload: Option<seq<Byte>> := None;
      if dataLen > 0 || dynamicDataLen {
        if file.None? {
          return Err(OpenFailed);
        }
        if dynamicDataLen {
          SetDataLen(|file.value|);
        }
        payload := file;
      }
      if !hasMetadata || raw.None? {
        return Err(NoHeader);
      }
      var h := raw.value[..TrimHeader(raw.value, |raw.value|)];
      var ret := new Retriever(h, payload, dataLen);
      return Ok(ret);
    }

    /** Ends the build: `free_pDd`. */
    method FreeBuild()
      modifies this`building, this`header, this`fileOpen
      ensures !building && header == [] && !fileOpen
    {
      building := false;
      header := [];
      fileOpen := false;
    }
  }

  // ---------------------------------------------------------------------------
  // The retriever

  datatype RetrieverError = OpenFailed | NoHeader

  /** `DataObjectDataRetrieverImplementation`: serves the header and then the
   *  payload file. */
  /** Reading n more payload bytes from the unread rest of the file
   *  extends the payload served by a longer prefix of the file. */
  lemma PayloadRead(headerSent: seq<Byte>, sent: seq<Byte>, fileAll: seq<Byte>, sentBody: seq<Byte>,
                    fileRest: seq<Byte>, n: nat)
    requires sent == headerSent + sentBody && sentBody <= fileAll
    requires fileRest == fileAll[|sentBody|..] && n <= |fileRest|
    ensures sentBody + fileRest[..n] <= fileAll
    ensures fileRest[n..] == fileAll[|sentBody| + n..]
    ensures sent + fileRest[..n] == headerSent + (sentBody + fileRest[..n])
  {
    assert sentBody + fileRest[..n] == fileAll[..|sentBody| + n];
  }

  class Retriever {
    var header: seq<Byte>
    var headerLeft: nat
    var fileOpen: bool
    /** The unread part of the payload file. */
    var fileRest: seq<Byte>
    var bytesLeft: nat
    /** The whole payload file, the payload bytes to serve, every byte served
     *  and the payload bytes among them. */
    ghost var fileAll: seq<Byte>
    ghost var bodyLen: nat
    ghost var sent: seq<Byte>
    ghost var sentBody: seq<Byte>

    /** The bytes served are the header served so far followed by the payload
     *  served so far; payload is served only after the whole header, and
     *  never more of it than the payload length. */
    ghost predicate Valid()
      reads this
    {
      headerLeft <= |header|
      && sent == header[..|header| - headerLeft] + sentBody
      && (sentBody != [] ==> headerLeft == 0)
      && sentBody <= fileAll && |sentBody| <= bodyLen
      && (fileOpen ==> fileRest == fileAll[|sentBody|..] && |sentBody| + bytesLeft == bodyLen)
    }

    constructor (header: seq<Byte>, file: Option<seq<Byte>>, bodyLen: nat)
      ensures Valid() && sent == [] && sentBody == []
      ensures this.header == header && headerLeft == |header|
      ensures fileOpen <==> file.Some?
      ensures file.Some? ==> fileAll == file.value && bytesLeft == bodyLen && this.bodyLen == bodyLen
    {
      this.header := header;
      headerLeft := |header|;
      fileOpen := file.Some?;
      fileRest := if file.Some? then file.value else [];
      fileAll := if file.Some? then file.value else [];
      bytesLeft := if file.Some? then bodyLen else 0;
      this.bodyLen := if file.Some? then bodyLen else 0;
      sent := [];
      sentBody := [];
    }

    /** Everything served is a prefix of the header followed by the payload
     *  file. */
    lemma SentIsPrefix()
      requires Valid()
      ensures sent <= header + fileAll
    {
      var x := |header| - headerLeft;
      if sentBody == [] {
        assert sent == header[..x];
      } else {
        assert sent == header + sentBody;
      }
    }

    /** `retrieve`: up to `len` bytes, header bytes first; with
     *  `getHeaderOnly` nothing after the header; payload reads are capped at
     *  the payload bytes left. A short read is the end of the file, unless
     *  the file reports an error (`readError`), which gives -1. 0 for a
     *  non-empty buffer means everything has been served. */
    method Retrieve(len: nat, getHeaderOnly: bool, readError: bool) returns (r: int, out: seq<Byte>)
      requires Valid()
      modifies this
      ensures Valid()
      ensures header == old(header) && fileAll == old(fileAll) && bodyLen == old(bodyLen)
      ensures sent == old(sent) + out && |out| <= len
      ensures r >= 0 ==> r == |out|
      ensures r < 0 ==> r == -1 && readError
      ensures getHeaderOnly ==> sentBody == old(sentBody)
      ensures len > 0 && r == 0 ==> headerLeft == 0 && (getHeaderOnly || !fileOpen)
    {
      if len == 0 {
        return 0, [];
      }
      var readLen := 0;
      out := [];
      if headerLeft > 0 {
        out := ServeHeader(len);
        readLen := |out|;
        if headerLeft > 0 || |out| == len {
          return readLen, out;
        }
      }
      if getHeaderOnly {
        return readLen, out;
      }
      if !fileOpen {
        return readLen, out;
      }
      var want := len - readLen;
      if want > bytesLeft {
        want := bytesLeft;
      }
      var got, chunk := ReadPayload(want, readError);
      out := out + chunk;
      if got < 0 {
        return -1, out;
      }
      return readLen + got, out;
    }

    /** The header part of `retrieve`: the rest of the header, up to `len`
     *  bytes. */
    method ServeHeader(len: nat) returns (out: seq<Byte>)
      requires Valid() && headerLeft > 0 && len > 0
      modifies this`headerLeft, this`sent
      ensures Valid()
      ensures out == old(header[|header| - headerLeft..][..if headerLeft < len then headerLeft else len])
      ensures sent == old(sent) + out
      ensures headerLeft == old(headerLeft) - |out|
      ensures headerLeft > 0 ==> |out| == len
    {
      var start := |header| - headerLeft;
      if headerLeft >= len {
        out := header[start..start + len];
        assert header[..start] + out == header[..start + len];
        headerLeft := headerLeft - len;
      } else {
        out := header[start..];
        assert header[..start] + out == header;
        headerLeft := 0;
      }
      sent := sent + out;
    }

    /** The payload part of `retrieve`: `fread` of `want` bytes, `want` being
     *  at most the payload bytes left; the file closes when no payload byte
     *  is left or at a short read. */
    method ReadPayload(want: nat, readError: bool) returns (got: int, chunk: seq<Byte>)
      requires Valid() && headerLeft == 0 && fileOpen && want <= bytesLeft && (want > 0 || bytesLeft == 0)
      modifies this`fileRest, this`bytesLeft, this`sentBody, this`sent, this`fileOpen
      ensures Valid()
      ensures |chunk| <= want && sent == old(sent) + chunk && sentBody == old(sentBody) + chunk
      ensures got >= 0 ==> got == |chunk|
      ensures got < 0 ==> got == -1 && readError
      ensures got == 0 ==> !fileOpen
    {
      var n := if want < |fileRest| then want else |fileRest|;
      chunk := fileRest[..n];
      PayloadRead(header[..|header| - headerLeft], sent, fileAll, sentBody, fileRest, n);
      fileRest := fileRest[n..];
      bytesLeft := bytesLeft - n;
      sentBody := sentBody + chunk;
      sent := sent + chunk;
      got := n;
      if bytesLeft == 0 {
        fileOpen := false;
      } else if n < want {
        if readError {
          got := -1;
        } else {
          fileOpen := false;
        }
      }
    }
  }
}
