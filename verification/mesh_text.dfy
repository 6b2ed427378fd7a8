/**
 * The line-oriented text dump of the mesh store: a vertex-count line, one
 * line per vertex with its flags, a face-count line and one line per face,
 * every number printed in decimal as `%u` prints it. A reader for that
 * layout shows that the dump loses nothing.
 */
module MeshText {
  import opened Wrappers
  import opened MeshTypes
  import opened FaceList
  import opened TopoMesh

  predicate IsDigit(c: char)
  {
    '0' <= c <= '9'
  }

  predicate AllDigits(s: string)
  {
    forall i :: 0 <= i < |s| ==> IsDigit(s[i])
  }

  /** The character of a decimal digit. */
  function DigitChar(d: nat): (c: char)
    requires d < 10
    ensures IsDigit(c)
  {
    (('0' as int) + d) as char
  }

  /** The value of a decimal digit character. */
  function DigitValue(c: char): (d: nat)
    requires IsDigit(c)
    ensures d < 10 && DigitChar(d) == c
  {
    (c as int) - ('0' as int)
  }

  /** `%u`: the decimal digits of `n`, most significant first. */
  function Dec(n: nat): (s: string)
    ensures |s| >= 1 && AllDigits(s)
    ensures s[0] == '0' ==> n == 0
  {
    if n < 10 then [DigitChar(n)] else Dec(n / 10) + [DigitChar(n % 10)]
  }

  /** The number a run of digits denotes, read left to right after `acc`. */
  function DigitsValue(ds: string, acc: nat): nat
    requires AllDigits(ds)
  {
    if |ds| == 0 then acc else DigitsValue(ds[1..], 10 * acc + DigitValue(ds[0]))
  }

  lemma {:induction false} DigitsValueAppend(a: string, b: string, acc: nat)
    requires AllDigits(a) && AllDigits(b)
    ensures AllDigits(a + b)
    ensures DigitsValue(a + b, acc) == DigitsValue(b, DigitsValue(a, acc))
  {
    if |a| == 0 {
      assert a + b == b;
    } else {
      assert (a + b)[0] == a[0];
      assert (a + b)[1..] == a[1..] + b;
      DigitsValueAppend(a[1..], b, 10 * acc + DigitValue(a[0]));
    }
  }

  /** The digits that `%u` prints denote the number printed. */
  lemma {:induction false} DecValue(n: nat)
    ensures DigitsValue(Dec(n), 0) == n
  {
    if n >= 10 {
      DecValue(n / 10);
      DigitsValueAppend(Dec(n / 10), [DigitChar(n % 10)], 0);
    }
  }

  /** Consumes the longest run of digits at the front of `s`, accumulating after `acc`. */
  function ReadDigits(s: string, acc: nat): (r: (nat, string))
    ensures |r.1| <= |s|
  {
    if |s| > 0 && IsDigit(s[0]) then ReadDigits(s[1..], 10 * acc + DigitValue(s[0])) else (acc, s)
  }

  /** A number at the front of `s`, and what follows it; none when `s` does not start with a digit. */
  function ReadNat(s: string): (r: Option<(nat, string)>)
    ensures r.Some? ==> |r.value.1| < |s|
  {
    if |s| == 0 || !IsDigit(s[0]) then None else Some(ReadDigits(s[1..], DigitValue(s[0])))
  }

  /** A line of text cannot continue a number: it is empty or starts with something other than a digit. */
  predicate EndsNumber(rest: string)
  {
    |rest| == 0 || !IsDigit(rest[0])
  }

  lemma {:induction false} ReadDigitsOf(ds: string, rest: string, acc: nat)
    requires AllDigits(ds) && EndsNumber(rest)
    ensures ReadDigits(ds + rest, acc) == (DigitsValue(ds, acc), rest)
  {
    if |ds| > 0 {
      assert (ds + rest)[0] == ds[0];
      assert (ds + rest)[1..] == ds[1..] + rest;
      ReadDigitsOf(ds[1..], rest, 10 * acc + DigitValue(ds[0]));
    } else {
      assert ds + rest == rest;
    }
  }

  /** Reading back a printed number gives the number and leaves what followed it. */
  lemma ReadNatDec(n: nat, rest: string)
    requires EndsNumber(rest)
    ensures ReadNat(Dec(n) + rest) == Some((n, rest))
  {
    var s := Dec(n) + rest;
    assert s[0] == Dec(n)[0];
    assert s[1..] == Dec(n)[1..] + rest;
    ReadDigitsOf(Dec(n)[1..], rest, DigitValue(s[0]));
    DecValue(n);
    assert Dec(n) == [Dec(n)[0]] + Dec(n)[1..];
    DigitsValueAppend([Dec(n)[0]], Dec(n)[1..], 0);
  }

  /** `s` with the literal `lit` removed from its front, if it starts with it. */
  function Expect(lit: string, s: string): (r: Option<string>)
    ensures r.Some? ==> s == lit + r.value
  {
    if |lit| == 0 then Some(s)
    else if |s| > 0 && s[0] == lit[0] then Expect(lit[1..], s[1..])
    else None
  }

  lemma {:induction false} ExpectLit(lit: string, rest: string)
    ensures Expect(lit, lit + rest) == Some(rest)
  {
    if |lit| > 0 {
      assert (lit + rest)[0] == lit[0];
      assert (lit + rest)[1..] == lit[1..] + rest;
      ExpectLit(lit[1..], rest);
    } else {
      assert lit + rest == rest;
    }
  }

  /** One piece of a printf format: literal text, or a `%u` conversion. */
  datatype Field = Lit(text: string) | Num

  /** The number of `%u` conversions in a format. */
  function NumCount(fmt: seq<Field>): nat
  {
    if |fmt| == 0 then 0 else (if fmt[0].Num? then 1 else 0) + NumCount(fmt[1..])
  }

  /** fprintf: the text a format prints for the given values, one per conversion. */
  function Render(fmt: seq<Field>, vals: seq<nat>): string
    requires |vals| == NumCount(fmt)
  {
    if |fmt| == 0 then ""
    else match fmt[0]
      case Lit(t) => t + Render(fmt[1..], vals)
      case Num => Dec(vals[0]) + Render(fmt[1..], vals[1..])
  }

  /** Reads text laid out by a format back into its values, and the text after it. */
  function Scan(fmt: seq<Field>, s: string): (r: Option<(seq<nat>, string)>)
    ensures r.Some? ==> |r.value.0| == NumCount(fmt) && |r.value.1| <= |s|
  {
    if |fmt| == 0 then Some(([], s))
    else match fmt[0]
      case Lit(t) =>
        var e := Expect(t, s);
        if e.None? then None else Scan(fmt[1..], e.value)
      case Num =>
        var n := ReadNat(s);
        if n.None? then None
        else
          var more := Scan(fmt[1..], n.value.1);
          if more.None? then None else Some(([n.value.0] + more.value.0, more.value.1))
  }

  /** Every conversion is followed by literal text that starts with a non-digit, so no two numbers run together. */
  predicate Separated(fmt: seq<Field>)
  {
    forall i :: 0 <= i < |fmt| && fmt[i].Num? ==>
      i + 1 < |fmt| && fmt[i + 1].Lit? && |fmt[i + 1].text| > 0 && !IsDigit(fmt[i + 1].text[0])
  }

  /** Printed text that starts with a literal starts with that literal's first character. */
  lemma RenderStart(fmt: seq<Field>, vals: seq<nat>, rest: string)
    requires |vals| == NumCount(fmt) && |fmt| > 0 && fmt[0].Lit? && |fmt[0].text| > 0
    ensures (Render(fmt, vals) + rest)[0] == fmt[0].text[0]
  {
  }

  /** Scanning what a separated format printed gives back the values, whatever follows. */
  lemma {:induction false} ScanRender(fmt: seq<Field>, vals: seq<nat>, rest: string)
    requires |vals| == NumCount(fmt) && Separated(fmt)
    ensures Scan(fmt, Render(fmt, vals) + rest) == Some((vals, rest))
  {
    if |fmt| > 0 {
      var tail := fmt[1..];
      assert Separated(tail) by {
        forall i | 0 <= i < |tail| && tail[i].Num?
          ensures i + 1 < |tail| && tail[i + 1].Lit? && |tail[i + 1].text| > 0 && !IsDigit(tail[i + 1].text[0])
        {
          assert fmt[i + 1] == tail[i];
        }
      }
      match fmt[0]
      case Lit(t) =>
        Assoc(t, Render(tail, vals), rest);
        ExpectLit(t, Render(tail, vals) + rest);
        ScanRender(tail, vals, rest);
      case Num =>
        var after := Render(tail, vals[1..]) + rest;
        assert fmt[1] == tail[0] && !IsDigit(fmt[1].text[0]);
        Assoc(Dec(vals[0]), Render(tail, vals[1..]), rest);
        RenderStart(tail, vals[1..], rest);
        assert EndsNumber(after);
        ReadNatDec(vals[0], after);
        ScanRender(tail, vals[1..], rest);
        assert [vals[0]] + vals[1..] == vals;
    } else {
      assert Render(fmt, vals) + rest == rest;
    }
  }

  /** `# vertices: %u` */
  const VertexCountFmt: seq<Field> := [Lit("# vertices: "), Num, Lit("\n")]
  /** `v %u flags %u` */
  const VertexFmt: seq<Field> := [Lit("v "), Num, Lit(" flags "), Num, Lit("\n")]
  /** `# faces: %u` */
  const FaceCountFmt: seq<Field> := [Lit("# faces: "), Num, Lit("\n")]
  /** `f %u %u %u` */
  const FaceFmt: seq<Field> := [Lit("f "), Num, Lit(" "), Num, Lit(" "), Num, Lit("\n")]

  /** Counting conversions from position `k` on. */
  lemma NumCountAt(fmt: seq<Field>, k: nat)
    requires k < |fmt|
    ensures NumCount(fmt[k..]) == (if fmt[k].Num? then 1 else 0) + NumCount(fmt[k + 1..])
  {
    assert fmt[k..][1..] == fmt[k + 1..];
  }

  /** The count formats keep their number apart from what follows. */
  lemma CountFormatsSeparated()
    ensures Separated(VertexCountFmt) && NumCount(VertexCountFmt) == 1
    ensures Separated(FaceCountFmt) && NumCount(FaceCountFmt) == 1
  {
    assert NumCount(VertexCountFmt[2..]) == 0;
    assert NumCount(FaceCountFmt[2..]) == 0;
  }

  /** The vertex-line format keeps its two numbers apart. */
  lemma VertexFormatSeparated()
    ensures Separated(VertexFmt) && NumCount(VertexFmt) == 2
  {
    NumCountAt(VertexFmt, 4);
    NumCountAt(VertexFmt, 3);
    NumCountAt(VertexFmt, 2);
    NumCountAt(VertexFmt, 1);
  }

  /** The face-line format keeps its three numbers apart. */
  lemma FaceFormatSeparated()
    ensures Separated(FaceFmt) && NumCount(FaceFmt) == 3
  {
    FaceFormatCount();
    forall i | 0 <= i < |FaceFmt| && FaceFmt[i].Num?
      ensures i + 1 < |FaceFmt| && FaceFmt[i + 1].Lit? && |FaceFmt[i + 1].text| > 0 && !IsDigit(FaceFmt[i + 1].text[0])
    {
      assert i == 1 || i == 3 || i == 5;
    }
  }

  lemma FaceFormatCount()
    ensures NumCount(FaceFmt) == 3
  {
    NumCountAt(FaceFmt, 6);
    NumCountAt(FaceFmt, 5);
    NumCountAt(FaceFmt, 4);
    NumCountAt(FaceFmt, 3);
    NumCountAt(FaceFmt, 2);
    NumCountAt(FaceFmt, 1);
  }

  /** The line for vertex `i`. */
  function VertexLine(i: nat, flag: u32): string
  {
    VertexFormatSeparated();
    Render(VertexFmt, [i, flag])
  }

  /** The line for one face. */
  function FaceLine(a: u32, b: u32, c: u32): string
  {
    FaceFormatSeparated();
    Render(FaceFmt, [a, b, c])
  }

  /** The lines of the vertices `from, from+1, ...` whose flags are `flags`. */
  function VertexLines(flags: seq<u32>, from: nat): string
  {
    if |flags| == 0 then "" else VertexLine(from, flags[0]) + VertexLines(flags[1..], from + 1)
  }

  /** The lines of the faces of a flat triple sequence, in face order. */
  function FaceLines(faces: seq<u32>): string
  {
    if |faces| < 3 then "" else FaceLine(faces[0], faces[1], faces[2]) + FaceLines(faces[3..])
  }

  /** mesh_export_face_list_text, as the text it writes. */
  function Text(flags: seq<u32>, faces: seq<u32>): string
    requires |faces| % 3 == 0
  {
    CountFormatsSeparated();
    Render(VertexCountFmt, [|flags|]) + VertexLines(flags, 0)
      + (Render(FaceCountFmt, [|faces| / 3]) + FaceLines(faces))
  }

  /** Appending one flag appends its line. */
  lemma {:induction false} VertexLinesSnoc(flags: seq<u32>, x: u32, from: nat)
    ensures VertexLines(flags + [x], from) == VertexLines(flags, from) + VertexLine(from + |flags|, x)
  {
    if |flags| > 0 {
      assert (flags + [x])[0] == flags[0];
      assert (flags + [x])[1..] == flags[1..] + [x];
      VertexLinesSnoc(flags[1..], x, from + 1);
      Assoc(VertexLine(from, flags[0]), VertexLines(flags[1..], from + 1), VertexLine(from + |flags|, x));
    } else {
      assert (flags + [x])[1..] == [];
    }
  }

  /** Appending one face appends its line. */
  lemma {:induction false} FaceLinesSnoc(faces: seq<u32>, count: nat, a: u32, b: u32, c: u32)
    requires |faces| == 3 * count
    ensures FaceLines(faces + [a, b, c]) == FaceLines(faces) + FaceLine(a, b, c)
  {
    if count > 0 {
      assert (faces + [a, b, c])[..3] == faces[..3];
      assert (faces + [a, b, c])[3..] == faces[3..] + [a, b, c];
      FaceLinesSnoc(faces[3..], count - 1, a, b, c);
      Assoc(FaceLine(faces[0], faces[1], faces[2]), FaceLines(faces[3..]), FaceLine(a, b, c));
    } else {
      assert (faces + [a, b, c])[3..] == [];
    }
  }

  /** Reads the line of vertex `i`, giving its flags and the text after the line. */
  function ParseVertexLine(s: string, i: nat): (r: Option<(u32, string)>)
    ensures r.Some? ==> |r.value.1| < |s|
  {
    VertexFormatSeparated();
    var r := Scan(VertexFmt, s);
    if r.None? || r.value.0[0] != i || r.value.0[1] > U32Max || |r.value.1| == |s| then None
    else Some((r.value.0[1], r.value.1))
  }

  /** Reads `count` vertex lines numbered from `from`. */
  function ParseVertexLines(s: string, count: nat, from: nat): (r: Option<(seq<u32>, string)>)
    ensures r.Some? ==> |r.value.0| == count
    decreases count
  {
    if count == 0 then Some(([], s))
    else
      var line := ParseVertexLine(s, from);
      if line.None? then None
      else
        var more := ParseVertexLines(line.value.1, count - 1, from + 1);
        if more.None? then None else Some(([line.value.0] + more.value.0, more.value.1))
  }

  /** Whether every value fits a `uint32_t`. */
  predicate AllU32(vals: seq<nat>)
  {
    forall i :: 0 <= i < |vals| ==> vals[i] <= U32Max
  }

  /** Reads one face line, giving its three corners and the text after the line. */
  function ParseFaceLine(s: string): (r: Option<(seq<u32>, string)>)
    ensures r.Some? ==> |r.value.0| == 3
  {
    FaceFormatSeparated();
    var r := Scan(FaceFmt, s);
    if r.None? || !AllU32(r.value.0) then None
    else Some(([r.value.0[0], r.value.0[1], r.value.0[2]], r.value.1))
  }

  /** Reads `count` face lines. */
  function ParseFaceLines(s: string, count: nat): (r: Option<(seq<u32>, string)>)
    ensures r.Some? ==> |r.value.0| == 3 * count
    decreases count
  {
    if count == 0 then Some(([], s))
    else
      var line := ParseFaceLine(s);
      if line.None? then None
      else
        var more := ParseFaceLines(line.value.1, count - 1);
        if more.None? then None else Some((line.value.0 + more.value.0, more.value.1))
  }

  /** Reads a whole dump back into its flags and flat faces; none unless the text is exactly a dump. */
  function ParseText(s: string): Option<(seq<u32>, seq<u32>)>
  {
    CountFormatsSeparated();
    var vc := Scan(VertexCountFmt, s);
    if vc.None? then None else
    var vs := ParseVertexLines(vc.value.1, vc.value.0[0], 0);
    if vs.None? then None else
    var fc := Scan(FaceCountFmt, vs.value.1);
    if fc.None? then None else
    var fs := ParseFaceLines(fc.value.1, fc.value.0[0]);
    if fs.None? || fs.value.1 != "" then None else Some((vs.value.0, fs.value.0))
  }

  lemma ParseVertexLineOf(i: nat, x: u32, rest: string)
    ensures ParseVertexLine(VertexLine(i, x) + rest, i) == Some((x, rest))
  {
    VertexFormatSeparated();
    ScanRender(VertexFmt, [i, x], rest);
  }

  lemma {:induction false} ParseVertexLinesOf(flags: seq<u32>, from: nat, rest: string)
    ensures ParseVertexLines(VertexLines(flags, from) + rest, |flags|, from) == Some((flags, rest))
  {
    if |flags| > 0 {
      var line := VertexLine(from, flags[0]);
      var tail := VertexLines(flags[1..], from + 1) + rest;
      Assoc(line, VertexLines(flags[1..], from + 1), rest);
      ParseVertexLineOf(from, flags[0], tail);
      ParseVertexLinesOf(flags[1..], from + 1, rest);
      assert [flags[0]] + flags[1..] == flags;
    } else {
      assert VertexLines(flags, from) + rest == rest;
    }
  }

  lemma ParseFaceLineOf(a: u32, b: u32, c: u32, rest: string)
    ensures ParseFaceLine(FaceLine(a, b, c) + rest) == Some(([a, b, c], rest))
  {
    FaceFormatSeparated();
    ScanRender(FaceFmt, [a, b, c], rest);
  }

  /** Reading `count` face lines is reading one and then `count - 1` more. */
  lemma ParseFaceLinesCons(s: string, count: nat, t: seq<u32>, s1: string, u: seq<u32>, r: string)
    requires count > 0 && ParseFaceLine(s) == Some((t, s1)) && ParseFaceLines(s1, count - 1) == Some((u, r))
    ensures ParseFaceLines(s, count) == Some((t + u, r))
  {
  }

  lemma {:induction false} ParseFaceLinesOf(faces: seq<u32>, count: nat, rest: string)
    requires |faces| == 3 * count
    ensures ParseFaceLines(FaceLines(faces) + rest, count) == Some((faces, rest))
  {
    if count > 0 {
      var line := FaceLine(faces[0], faces[1], faces[2]);
      var tail := FaceLines(faces[3..]) + rest;
      Assoc(line, FaceLines(faces[3..]), rest);
      ParseFaceLineOf(faces[0], faces[1], faces[2], tail);
      ParseFaceLinesOf(faces[3..], count - 1, rest);
      ParseFaceLinesCons(line + tail, count, [faces[0], faces[1], faces[2]], tail, faces[3..], rest);
      assert [faces[0], faces[1], faces[2]] + faces[3..] == faces;
    } else {
      assert FaceLines(faces) + rest == rest;
    }
  }

  /** A dump is read as its count line, its vertex lines, its face-count line and its face lines. */
  lemma ParseTextParts(s: string, vc: nat, s1: string, flags: seq<u32>, s2: string, fc: nat, s3: string, faces: seq<u32>)
    requires Scan(VertexCountFmt, s) == Some(([vc], s1)) && ParseVertexLines(s1, vc, 0) == Some((flags, s2))
    requires Scan(FaceCountFmt, s2) == Some(([fc], s3)) && ParseFaceLines(s3, fc) == Some((faces, ""))
    ensures ParseText(s) == Some((flags, faces))
  {
  }

  /** The dump can be read back: it determines the flags and the faces it was written from. */
  lemma ParseTextOfText(flags: seq<u32>, faces: seq<u32>)
    requires |faces| % 3 == 0
    ensures ParseText(Text(flags, faces)) == Some((flags, faces))
  {
    CountFormatsSeparated();
    var fc := |faces| / 3;
    var facePart := Render(FaceCountFmt, [fc]) + FaceLines(faces);
    var vertexPart := VertexLines(flags, 0) + facePart;
    Assoc(Render(VertexCountFmt, [|flags|]), VertexLines(flags, 0), facePart);
    ScanRender(VertexCountFmt, [|flags|], vertexPart);
    ParseVertexLinesOf(flags, 0, facePart);
    ScanRender(FaceCountFmt, [fc], FaceLines(faces));
    FaceCountOf(fc);
    ParseFaceLinesOf(faces, fc, "");
    assert FaceLines(faces) + "" == FaceLines(faces);
    ParseTextParts(Text(flags, faces), |flags|, vertexPart, flags, facePart, fc, FaceLines(faces), faces);
  }

  /** Appends the lines of the vertices whose flags are `flags[0 .. count-1]` to `prefix`. */
  method AppendVertexLines(prefix: string, flags: array<u32>, count: nat) returns (out: string)
    requires count <= flags.Length
    ensures out == prefix + VertexLines(flags[..count], 0)
  {
    out := prefix;
    for i := 0 to count
      invariant out == prefix + VertexLines(flags[..i], 0)
    {
      assert flags[..i + 1] == flags[..i] + [flags[i]];
      VertexLinesSnoc(flags[..i], flags[i], 0);
      Assoc(prefix, VertexLines(flags[..i], 0), VertexLine(i, flags[i]));
      out := out + VertexLine(i, flags[i]);
    }
  }

  /** Appends the lines of the faces stored in `faces[0 .. 3*count-1]` to `prefix`. */
  method AppendFaceLines(prefix: string, faces: array<u32>, count: nat) returns (out: string)
    requires 3 * count <= faces.Length
    ensures out == prefix + FaceLines(faces[..3 * count])
  {
    out := prefix;
    for fi := 0 to count
      invariant out == prefix + FaceLines(faces[..3 * fi])
    {
      var idx := fi * 3;
      var a, b, c := faces[idx], faces[idx + 1], faces[idx + 2];
      assert faces[..3 * fi + 3] == faces[..3 * fi] + [a, b, c];
      FaceLinesSnoc(faces[..3 * fi], fi, a, b, c);
      Assoc(prefix, FaceLines(faces[..3 * fi]), FaceLine(a, b, c));
      out := out + FaceLine(a, b, c);
    }
  }

  /** mesh_export_face_list_text: the vertex count, the vertex lines, the face count, the face lines. */
  method ExportFaceListText(m: Mesh) returns (out: string)
    requires m.Valid()
    ensures out == Text(m.Flags(), m.FaceData())
  {
    CountFormatsSeparated();
    FaceCountOf(m.faceCount);
    out := Render(VertexCountFmt, [m.vertexCount]);
    out := AppendVertexLines(out, m.vertexFlags, m.vertexCount);
    var header := Render(FaceCountFmt, [m.faceCount]);
    var faceText := AppendFaceLines(header, m.faces, m.faceCount);
    out := out + faceText;
  }
}
