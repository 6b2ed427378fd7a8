/**
 * The canonical binary format of the mesh store: the magic "TOPOC001", the
 * vertex count and the face count, the vertex flags and then the face
 * triples, every number a 32-bit little-endian word.
 */
module MeshCodec {
  import opened Wrappers
  import opened MeshTypes
  import opened Capacity
  import opened FaceList
  import opened TopoMesh

  /** The eight magic bytes "TOPOC001". */
  const Magic: seq<byte> := [0x54, 0x4F, 0x50, 0x4F, 0x43, 0x30, 0x30, 0x31]

  /** Bytes before the vertex flags: the magic and the two counts. */
  const HeaderSize: nat := 16

  /** write_u32_le: the four bytes of `v`, least significant first, each taken after shifting by another 8 bits. */
  function LeBytes(v: u32): (b: seq<byte>)
    ensures |b| == 4
    ensures b[0] == v % 0x100 && b[3] == v / 0x100_0000
  {
    var v1 := v / 0x100;
    var v2 := v1 / 0x100;
    [v % 0x100, v1 % 0x100, v2 % 0x100, v2 / 0x100]
  }

  /** read_u32_le: the word whose little-endian bytes are `b`. */
  function FromLe(b: seq<byte>): (v: u32)
    requires |b| == 4
    ensures v % 0x100 == b[0] && v / 0x100_0000 == b[3]
  {
    var b0: int, b1: int, b2: int, b3: int := b[0], b[1], b[2], b[3];
    b0 + 0x100 * (b1 + 0x100 * (b2 + 0x100 * b3))
  }

  /** One byte split off the bottom of `x + 256 * y`. */
  lemma DivModByte(x: int, y: int)
    requires 0 <= x < 0x100 && 0 <= y
    ensures (x + 0x100 * y) % 0x100 == x && (x + 0x100 * y) / 0x100 == y
  {
  }

  /** Reading back the bytes of a word gives the word. */
  lemma FromLeLeBytes(v: u32)
    ensures FromLe(LeBytes(v)) == v
  {
    var v1 := v / 0x100;
    var v2 := v1 / 0x100;
    assert v == v % 0x100 + 0x100 * v1;
    assert v1 == v1 % 0x100 + 0x100 * v2;
    assert v2 == v2 % 0x100 + 0x100 * (v2 / 0x100);
  }

  /** Writing the word read from four bytes gives the same four bytes. */
  lemma LeBytesFromLe(b: seq<byte>)
    requires |b| == 4
    ensures LeBytes(FromLe(b)) == b
  {
    var b0: int, b1: int, b2: int, b3: int := b[0], b[1], b[2], b[3];
    DivModByte(b0, b1 + 0x100 * (b2 + 0x100 * b3));
    DivModByte(b1, b2 + 0x100 * b3);
    DivModByte(b2, b3);
  }

  /** A sequence of words written one after another. */
  function Words(ws: seq<u32>): (b: seq<byte>)
    ensures |b| == 4 * |ws|
  {
    if |ws| == 0 then [] else LeBytes(ws[0]) + Words(ws[1..])
  }

  /** Writing two runs of words writes the first run and then the second. */
  lemma {:induction false} WordsAppend(xs: seq<u32>, ys: seq<u32>)
    ensures Words(xs + ys) == Words(xs) + Words(ys)
  {
    if |xs| == 0 {
      assert xs + ys == ys;
    } else {
      assert (xs + ys)[0] == xs[0];
      assert (xs + ys)[1..] == xs[1..] + ys;
      WordsAppend(xs[1..], ys);
    }
  }

  /** Word `j` of a run occupies bytes `4*j` to `4*j+3`. */
  lemma {:induction false} WordsAt(ws: seq<u32>, j: nat)
    requires j < |ws|
    ensures Words(ws)[4 * j .. 4 * j + 4] == LeBytes(ws[j])
  {
    if j > 0 {
      WordsAt(ws[1..], j - 1);
      assert Words(ws)[4 * j .. 4 * j + 4] == Words(ws[1..])[4 * (j - 1) .. 4 * (j - 1) + 4];
    }
  }

  /** `count` words read one after another from the front of `b`. */
  function ReadWords(b: seq<byte>, count: nat): (ws: seq<u32>)
    requires |b| >= 4 * count
    ensures |ws| == count
  {
    seq(count, j requires 0 <= j < count => FromLe(b[4 * j .. 4 * j + 4]))
  }

  /** A slice that ends inside `a` does not see what follows `a`. */
  lemma SliceOfPrefix(a: seq<byte>, rest: seq<byte>, i: nat, k: nat)
    requires i <= k <= |a|
    ensures (a + rest)[i..k] == a[i..k]
  {
  }

  /** Word `j` reads back from a run of written words, whatever follows them. */
  lemma ReadWordAt(ws: seq<u32>, rest: seq<byte>, j: nat)
    requires j < |ws|
    ensures FromLe((Words(ws) + rest)[4 * j .. 4 * j + 4]) == ws[j]
    ensures ReadWords(Words(ws) + rest, |ws|)[j] == ws[j]
  {
    WordsAt(ws, j);
    SliceOfPrefix(Words(ws), rest, 4 * j, 4 * j + 4);
    FromLeLeBytes(ws[j]);
  }

  /** Reading back written words gives the words, whatever follows them. */
  lemma ReadWordsOfWords(ws: seq<u32>, rest: seq<byte>)
    ensures ReadWords(Words(ws) + rest, |ws|) == ws
  {
    var r := ReadWords(Words(ws) + rest, |ws|);
    forall j | 0 <= j < |ws|
      ensures r[j] == ws[j]
    {
      ReadWordAt(ws, rest, j);
    }
  }

  /** Writing the words read from a byte string gives back the bytes that were read. */
  lemma {:induction false} WordsOfReadWords(b: seq<byte>, count: nat)
    requires |b| >= 4 * count
    ensures Words(ReadWords(b, count)) == b[..4 * count]
  {
    if count > 0 {
      var k := count - 1;
      WordsOfReadWords(b, k);
      assert ReadWords(b, count) == ReadWords(b, k) + [FromLe(b[4 * k .. 4 * k + 4])];
      WordsAppend(ReadWords(b, k), [FromLe(b[4 * k .. 4 * k + 4])]);
      LeBytesFromLe(b[4 * k .. 4 * k + 4]);
      assert b[..4 * count] == b[..4 * k] + b[4 * k .. 4 * k + 4];
    }
  }

  /** The vertex flags and the flat face triples that a mesh image carries. */
  datatype MeshImage = MeshImage(flags: seq<u32>, faces: seq<u32>)

  /** An image the format can carry: counts within the bounds the store keeps. */
  predicate Encodable(flags: seq<u32>, faces: seq<u32>)
  {
    |flags| <= MaxCapacity && |faces| % 3 == 0 && |faces| / 3 <= MaxFaces
  }

  /** The sixteen header bytes: the magic, then the vertex count, then the face count. */
  function Header(vc: u32, fc: u32): (h: seq<byte>)
    ensures |h| == HeaderSize && h[..8] == Magic
  {
    Magic + LeBytes(vc) + LeBytes(fc)
  }

  /** A header, whatever follows it, reads back as the magic and the two counts. */
  lemma HeaderCounts(vc: u32, fc: u32, rest: seq<byte>)
    ensures var b := Header(vc, fc) + rest;
      && b[..8] == Magic && FromLe(b[8..12]) == vc && FromLe(b[12..16]) == fc && b[16..] == rest
  {
    var b := Header(vc, fc) + rest;
    assert b[8..12] == LeBytes(vc);
    assert b[12..16] == LeBytes(fc);
    FromLeLeBytes(vc);
    FromLeLeBytes(fc);
  }

  /** The header rebuilt from the magic and the two counts it carries is the header. */
  lemma HeaderOfCounts(b: seq<byte>)
    requires |b| >= HeaderSize && b[..8] == Magic
    ensures Header(FromLe(b[8..12]), FromLe(b[12..16])) == b[..16]
  {
    LeBytesFromLe(b[8..12]);
    LeBytesFromLe(b[12..16]);
    assert b[..16] == b[..8] + b[8..12] + b[12..16];
  }

  /** mesh_serialize_canonical, as the bytes it writes. */
  function Encode(flags: seq<u32>, faces: seq<u32>): (b: seq<byte>)
    requires Encodable(flags, faces)
    ensures |b| == HeaderSize + 4 * |flags| + 4 * |faces|
  {
    Header(|flags|, |faces| / 3) + (Words(flags) + Words(faces))
  }

  /**
   * mesh_deserialize_canonical with the count bounds the store needs: an
   * image is read when the magic matches, the vertex count is at most 2^31,
   * the face count at most 0x5555_5555 and enough bytes follow. Bytes after
   * the last face are ignored.
   */
  function Decode(b: seq<byte>): (r: Option<MeshImage>)
    ensures r.Some? ==> Encodable(r.value.flags, r.value.faces)
    ensures r.Some? ==> |b| >= HeaderSize + 4 * |r.value.flags| + 4 * |r.value.faces| && b[..8] == Magic
  {
    if |b| < HeaderSize || b[..8] != Magic then None
    else
      var vc := FromLe(b[8..12]);
      var fc := FromLe(b[12..16]);
      if vc > MaxCapacity || fc > MaxFaces then None
      else if |b| < HeaderSize + 4 * vc + 12 * fc then None
      else Some(MeshImage(ReadWords(b[16..], vc), ReadWords(b[16 + 4 * vc..], 3 * fc)))
  }

  /**
   * A header whose vertex count is above 2^31 is refused before any buffer is
   * grown, so the capacity loop is never asked for more than it can reach.
   */
  lemma DecodeRefusesUngrowableCount(b: seq<byte>)
    requires |b| >= HeaderSize && b[..8] == Magic && FromLe(b[8..12]) > MaxCapacity
    ensures Decode(b) == None
  {
  }

  /**
   * A header whose face count is above 2^31 is refused as well: the same
   * doubling loop grows the face buffer, and it could not reach that count.
   */
  lemma DecodeRefusesUngrowableFaceCount(b: seq<byte>)
    requires |b| >= HeaderSize && b[..8] == Magic && FromLe(b[12..16]) > MaxCapacity
    ensures Decode(b) == None
  {
  }

  /** Decode reads the words after a header that carries the magic and admissible counts. */
  lemma DecodeAfterHeader(b: seq<byte>, vc: nat, fc: nat)
    requires |b| >= HeaderSize + 4 * vc + 12 * fc && b[..8] == Magic
    requires vc == FromLe(b[8..12]) && fc == FromLe(b[12..16]) && vc <= MaxCapacity && fc <= MaxFaces
    ensures Decode(b) == Some(MeshImage(ReadWords(b[16..], vc), ReadWords(b[16 + 4 * vc..], 3 * fc)))
  {
  }

  /** An encoded mesh decodes to itself, whatever bytes follow it. */
  lemma DecodeEncode(flags: seq<u32>, faces: seq<u32>, rest: seq<byte>)
    requires Encodable(flags, faces)
    ensures Decode(Encode(flags, faces) + rest) == Some(MeshImage(flags, faces))
  {
    var vc: nat := |flags|;
    var fc: nat := |faces| / 3;
    var body := Words(flags) + (Words(faces) + rest);
    var b := Encode(flags, faces) + rest;
    Assoc(Header(vc, fc), Words(flags) + Words(faces), rest);
    Assoc(Words(flags), Words(faces), rest);
    HeaderCounts(vc, fc, body);
    DecodeAfterHeader(b, vc, fc);
    ReadWordsOfWords(flags, Words(faces) + rest);
    ReadWordsOfWords(faces, rest);
    assert b[16 + 4 * vc..] == Words(faces) + rest;
  }

  /** Where the words of a decoded image come from. */
  lemma DecodedWords(b: seq<byte>)
    requires Decode(b).Some?
    ensures var vc: int, fc: int := FromLe(b[8..12]), FromLe(b[12..16]);
      && |b| >= HeaderSize + 4 * vc + 12 * fc && b[..8] == Magic
      && Decode(b).value.flags == ReadWords(b[16..], vc)
      && Decode(b).value.faces == ReadWords(b[16 + 4 * vc..], 3 * fc)
  {
  }

  /** Re-encoding the words read after a well-formed header gives back the bytes they were read from. */
  lemma ReEncodeWords(b: seq<byte>, vc: nat, fc: nat)
    requires |b| >= HeaderSize + 4 * vc + 12 * fc && b[..8] == Magic
    requires vc == FromLe(b[8..12]) && fc == FromLe(b[12..16]) && vc <= MaxCapacity && fc <= MaxFaces
    ensures Encode(ReadWords(b[16..], vc), ReadWords(b[16 + 4 * vc..], 3 * fc)) == b[..HeaderSize + 4 * vc + 12 * fc]
  {
    var flags := ReadWords(b[16..], vc);
    var faces := ReadWords(b[16 + 4 * vc..], 3 * fc);
    FaceCountOf(fc);
    HeaderOfCounts(b);
    WordsOfReadWords(b[16..], vc);
    WordsOfReadWords(b[16 + 4 * vc..], 3 * fc);
    assert Encode(flags, faces) == b[..16] + (b[16..][..4 * vc] + b[16 + 4 * vc..][..12 * fc]);
    ThreeParts(b, HeaderSize, 4 * vc, 12 * fc);
  }

  /** A prefix cut into three consecutive pieces. */
  lemma ThreeParts(b: seq<byte>, i: nat, j: nat, k: nat)
    requires i + j + k <= |b|
    ensures b[..i + j + k] == b[..i] + (b[i..][..j] + b[i + j..][..k])
  {
  }

  /** Whatever decodes starts with the encoding of what it decodes to. */
  lemma EncodeDecode(b: seq<byte>)
    requires Decode(b).Some?
    ensures var img := Decode(b).value; b[..|Encode(img.flags, img.faces)|] == Encode(img.flags, img.faces)
  {
    DecodedWords(b);
    ReEncodeWords(b, FromLe(b[8..12]), FromLe(b[12..16]));
  }

  /** Writes the first `n` words of `a` after `prefix`, one write_u32_le at a time. */
  method AppendWords(prefix: seq<byte>, a: array<u32>, n: nat) returns (out: seq<byte>)
    requires n <= a.Length
    ensures out == prefix + Words(a[..n])
  {
    out := prefix;
    for i := 0 to n
      invariant out == prefix + Words(a[..i])
    {
      WordsAppend(a[..i], [a[i]]);
      assert a[..i + 1] == a[..i] + [a[i]];
      out := out + LeBytes(a[i]);
    }
  }

  /** mesh_serialize_canonical: writes the header, the flags and the faces in order. */
  method Serialize(m: Mesh) returns (out: seq<byte>)
    requires m.Valid() && m.vertexCount <= MaxCapacity && m.faceCount <= MaxFaces
    ensures Encodable(m.Flags(), m.FaceData())
    ensures out == Encode(m.Flags(), m.FaceData())
  {
    out := Magic + LeBytes(m.vertexCount) + LeBytes(m.faceCount);
    out := AppendWords(out, m.vertexFlags, m.vertexCount);
    out := AppendWords(out, m.faces, m.faceCount * 3);
    FaceCountOf(m.faceCount);
    Assoc(Header(m.vertexCount, m.faceCount), Words(m.Flags()), Words(m.FaceData()));
  }

  /**
   * Reads `n` words starting at byte `pos` into `a[0 .. n-1]`, one
   * read_u32_le at a time; fails at the first word that runs past the end.
   */
  method ReadWordsInto(bytes: seq<byte>, pos: nat, a: array<u32>, n: nat) returns (ok: bool)
    requires n <= a.Length && pos <= |bytes|
    modifies a
    ensures ok <==> pos + 4 * n <= |bytes|
    ensures ok ==> a[..n] == ReadWords(bytes[pos..], n)
  {
    for i := 0 to n
      invariant pos + 4 * i <= |bytes|
      invariant forall j :: 0 <= j < i ==> a[j] == FromLe(bytes[pos + 4 * j .. pos + 4 * j + 4])
    {
      if pos + 4 * i + 4 > |bytes| {
        return false;
      }
      a[i] := FromLe(bytes[pos + 4 * i .. pos + 4 * i + 4]);
    }
    forall j | 0 <= j < n
      ensures a[j] == ReadWords(bytes[pos..], n)[j]
    {
      assert bytes[pos..][4 * j .. 4 * j + 4] == bytes[pos + 4 * j .. pos + 4 * j + 4];
    }
    ok := true;
  }

  /**
   * mesh_deserialize_canonical, with the count guard of Decode: a fresh mesh
   * holding the decoded flags and faces, or null exactly when Decode rejects
   * the bytes. The buffers are created as mesh_create sizes them for the two
   * counts.
   */
  method Deserialize(bytes: seq<byte>) returns (m: Mesh?)
    ensures m == null <==> Decode(bytes).None?
    ensures m != null ==> fresh(m.Repr) && m.Valid()
    ensures m != null ==> m.Flags() == Decode(bytes).value.flags && m.FaceData() == Decode(bytes).value.faces
    ensures m != null ==> m.vertexCapacity == GrownCapacity(0, m.vertexCount) && m.faceCapacity == GrownCapacity(0, m.faceCount)
  {
    if |bytes| < 8 || bytes[..8] != Magic {
      return null;
    }
    if |bytes| < 12 {
      return null;
    }
    var vcount := FromLe(bytes[8..12]);
    if |bytes| < HeaderSize {
      return null;
    }
    var fcount := FromLe(bytes[12..16]);
    if vcount > MaxCapacity || fcount > MaxFaces {
      return null;
    }
    m := new Mesh(vcount, fcount);
    m.vertexCount := vcount;
    m.faceCount := fcount;
    var ok := ReadWordsInto(bytes, HeaderSize, m.vertexFlags, vcount);
    if !ok {
      return null;
    }
    ok := ReadWordsInto(bytes, HeaderSize + 4 * vcount, m.faces, 3 * fcount);
    if !ok {
      return null;
    }
  }
}
