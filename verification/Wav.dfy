/** WAV files as wav.c of the digital filter example writes and reads them: the 44-byte
    header of the section "Waveform Audio File Format (WAVE)" of Multimedia Programming
    Interface and Data Specifications 1.0, then 16-bit samples. */
module Wav {
  import opened Bytes
  import opened LittleEndian

  const HEADER_SIZE := 44

  const RIFF: seq<byte> := [82, 73, 70, 70]
  const WAVE: seq<byte> := [87, 65, 86, 69]
  const FMT: seq<byte> := [102, 109, 116, 32]
  const DATA: seq<byte> := [100, 97, 116, 97]

  datatype Info = Info(fs: int, bits: int, length: int)

  // ---------------------------------------------------------------- the header

  /** The variable fields of the header, as stored. */
  datatype Fields = Fields(riffSize: seq<byte>, fmtSize: seq<byte>, formatType: seq<byte>, channel: seq<byte>,
                           rate: seq<byte>, byteRate: seq<byte>, blockSize: seq<byte>, bits: seq<byte>,
                           dataSize: seq<byte>)

  predicate Sized(f: Fields) {
    && |f.riffSize| == |f.fmtSize| == |f.rate| == |f.byteRate| == |f.dataSize| == 4
    && |f.formatType| == |f.channel| == |f.blockSize| == |f.bits| == 2
  }

  function FieldsOf(i: Info): (f: Fields)
    ensures Sized(f)
  {
    Fields(ToLe(36 + i.length * 2, 4), ToLe(16, 4), ToLe(1, 2), ToLe(1, 2), ToLe(i.fs, 4),
           ToLe(TruncDiv(i.fs * i.bits, 8), 4), ToLe(TruncDiv(i.bits, 8), 2), ToLe(i.bits, 2), ToLe(i.length * 2, 4))
  }

  function Layout(f: Fields): (s: seq<byte>)
    requires Sized(f)
    ensures |s| == HEADER_SIZE
  {
    RIFF + f.riffSize + WAVE + FMT + f.fmtSize + f.formatType + f.channel + f.rate + f.byteRate + f.blockSize
      + f.bits + DATA + f.dataSize
  }

  function Header(i: Info): (s: seq<byte>)
    ensures |s| == HEADER_SIZE
  {
    Layout(FieldsOf(i))
  }

  /** An unsigned 32-bit field assigned to an int. */
  function ToInt32(u: int): (v: int) {
    if u >= 0x8000_0000 then u - 0x1_0000_0000 else u
  }

  /** What open_input_wavfile takes from a header. */
  function Parsed(s: seq<byte>): (i: Info)
    requires |s| >= HEADER_SIZE
  {
    Info(ToInt32(FromLe(s[24..28])), FromLe(s[34..36]), FromLe(s[40..44]) / 2)
  }

  lemma FieldsInPlace(f: Fields, rest: seq<byte>)
    requires Sized(f)
    ensures var s := Layout(f) + rest;
            s[24..28] == f.rate && s[34..36] == f.bits && s[40..44] == f.dataSize
  {
    var s := Layout(f) + rest;
    assert s[24..28] == f.rate;
    assert s[34..36] == f.bits;
    assert s[40..44] == f.dataSize;
  }

  lemma RateField(v: int)
    ensures ToInt32(FromLe(ToLe(v, 4))) == v <==> -0x8000_0000 <= v < 0x8000_0000
  {
    Widths();
    FieldRoundTrip(v, 4);
  }

  lemma BitsField(v: int)
    ensures FromLe(ToLe(v, 2)) == v <==> 0 <= v < 0x1_0000
  {
    Widths();
    FieldRoundTrip(v, 2);
  }

  lemma LengthField(v: int)
    ensures FromLe(ToLe(v * 2, 4)) / 2 == v <==> 0 <= v < 0x8000_0000
  {
    Widths();
    FieldRoundTrip(v * 2, 4);
  }

  /** Reading undoes writing exactly for 16-bit bits, 31-bit lengths and any int rate. */
  lemma HeaderRoundTrip(i: Info, rest: seq<byte>)
    ensures Parsed(Header(i) + rest) == i <==>
            -0x8000_0000 <= i.fs < 0x8000_0000 && 0 <= i.bits < 0x1_0000 && 0 <= i.length < 0x8000_0000
  {
    FieldsInPlace(FieldsOf(i), rest);
    RateField(i.fs);
    BitsField(i.bits);
    LengthField(i.length);
  }

  function HalfAt(s: seq<byte>, k: nat): (v: int)
    requires k + 2 <= |s|
  {
    Half(s[k], s[k + 1])
  }

  function WordAt(s: seq<byte>, k: nat): (v: int)
    requires k + 4 <= |s|
  {
    Word(s[k], s[k + 1], s[k + 2], s[k + 3])
  }

  lemma StoredHalf(s: seq<byte>, k: nat, f: seq<byte>, v: int)
    requires k + 2 <= |s| && s[k..k + 2] == f == ToLe(v, 2)
    ensures HalfAt(s, k) == v % 65536
  {
    Widths();
    FieldRoundTrip(v, 2);
    FromHalf(f);
    assert f[0] == s[k] && f[1] == s[k + 1];
  }

  lemma StoredWord(s: seq<byte>, k: nat, f: seq<byte>, v: int)
    requires k + 4 <= |s| && s[k..k + 4] == f == ToLe(v, 4)
    ensures WordAt(s, k) == v % 0x1_0000_0000
  {
    Widths();
    FieldRoundTrip(v, 4);
    FromWord(f);
    assert f[0] == s[k] && f[1] == s[k + 1] && f[2] == s[k + 2] && f[3] == s[k + 3];
  }

  lemma SizeFields(f: Fields)
    requires Sized(f)
    ensures var s := Layout(f);
            && s[4..8] == f.riffSize && s[16..20] == f.fmtSize && s[24..28] == f.rate && s[28..32] == f.byteRate
            && s[40..44] == f.dataSize
  {
    var s := Layout(f);
    assert s[4..8] == f.riffSize;
    assert s[16..20] == f.fmtSize;
    assert s[24..28] == f.rate;
    assert s[28..32] == f.byteRate;
    assert s[40..44] == f.dataSize;
  }

  lemma ShortFields(f: Fields)
    requires Sized(f)
    ensures var s := Layout(f);
            && s[20..22] == f.formatType && s[22..24] == f.channel && s[32..34] == f.blockSize && s[34..36] == f.bits
  {
    var s := Layout(f);
    assert s[20..22] == f.formatType;
    assert s[22..24] == f.channel;
    assert s[32..34] == f.blockSize;
    assert s[34..36] == f.bits;
  }

  lemma TextFields(f: Fields)
    requires Sized(f)
    ensures var s := Layout(f);
            && (forall k :: 0 <= k < 4 ==> s[k] == "RIFF"[k] as int)
            && (forall k :: 0 <= k < 8 ==> s[8 + k] == "WAVEfmt "[k] as int)
            && (forall k :: 0 <= k < 4 ==> s[36 + k] == "data"[k] as int)
  {
    var s := Layout(f);
    assert s[..4] == RIFF;
    assert s[8..12] == WAVE;
    assert s[12..16] == FMT;
    assert s[36..40] == DATA;
    forall k | 0 <= k < 8 ensures s[8 + k] == "WAVEfmt "[k] as int {
      if k < 4 {
        assert s[8 + k] == s[8..12][k];
      } else {
        assert s[8 + k] == s[12..16][k - 4];
      }
    }
    forall k | 0 <= k < 4 ensures s[36 + k] == "data"[k] as int {
      assert s[36 + k] == s[36..40][k];
    }
  }

  /** The header in numbers: the sizes of the RIFF and the data chunk, a format chunk of 16 bytes
      for one channel of linear samples, its rates and widths; each modulo its field. */
  lemma HeaderInNumbers(i: Info)
    ensures var s := Header(i);
            && WordAt(s, 4) == (36 + i.length * 2) % 0x1_0000_0000 && WordAt(s, 16) == 16
            && HalfAt(s, 20) == 1 && HalfAt(s, 22) == 1
            && WordAt(s, 24) == i.fs % 0x1_0000_0000 && WordAt(s, 28) == TruncDiv(i.fs * i.bits, 8) % 0x1_0000_0000
            && HalfAt(s, 32) == TruncDiv(i.bits, 8) % 65536 && HalfAt(s, 34) == i.bits % 65536
            && WordAt(s, 40) == i.length * 2 % 0x1_0000_0000
  {
    var f, s := FieldsOf(i), Header(i);
    SizeFields(f);
    ShortFields(f);
    StoredWord(s, 4, f.riffSize, 36 + i.length * 2);
    StoredWord(s, 16, f.fmtSize, 16);
    StoredHalf(s, 20, f.formatType, 1);
    StoredHalf(s, 22, f.channel, 1);
    StoredWord(s, 24, f.rate, i.fs);
    StoredWord(s, 28, f.byteRate, TruncDiv(i.fs * i.bits, 8));
    StoredHalf(s, 32, f.blockSize, TruncDiv(i.bits, 8));
    StoredHalf(s, 34, f.bits, i.bits);
    StoredWord(s, 40, f.dataSize, i.length * 2);
  }

  predicate Fits32(v: int) {
    -0x8000_0000 <= v < 0x8000_0000
  }

  /** The writer's int and 32-bit long arithmetic stays in range; in C it is undefined otherwise. */
  predicate Defined(i: Info) {
    Fits32(i.length * 2) && Fits32(36 + i.length * 2) && Fits32(i.fs * i.bits)
  }

  /** With the overflow counted as a failure, the longest file that reads back has 1073741805
      samples, and rate times width has to fit an int. */
  lemma HeaderDefined(i: Info, rest: seq<byte>)
    ensures Defined(i) && Parsed(Header(i) + rest) == i <==>
            Fits32(i.fs) && 0 <= i.bits < 0x1_0000 && Fits32(i.fs * i.bits) && 0 <= i.length <= 1073741805
  {
    HeaderRoundTrip(i, rest);
  }

  // --------------------------------------------------------------- the samples

  function Sample(b: seq<byte>): (v: int16)
    requires |b| == 2
  {
    SampleRange(b);
    if FromLe(b) >= 32768 then FromLe(b) - 65536 else FromLe(b)
  }

  lemma SampleRange(b: seq<byte>)
    requires |b| == 2
    ensures FromLe(b) < 65536
  {
    assert b[1..][1..] == [];
    assert FromLe(b[1..]) == b[1];
  }

  lemma SampleRoundTrip(v: int16)
    ensures Sample(ToLe(v, 2)) == v
  {
    FieldRoundTrip(v, 2);
    Widths();
  }

  function Encoded(data: seq<int16>): (s: seq<byte>)
    ensures |s| == 2 * |data|
  {
    if data == [] then [] else Encoded(data[..|data| - 1]) + ToLe(data[|data| - 1], 2)
  }

  lemma {:induction false} EncodedAt(data: seq<int16>, k: nat)
    requires k < |data|
    ensures Encoded(data)[2 * k..2 * k + 2] == ToLe(data[k], 2)
  {
    var n := |data| - 1;
    var front := Encoded(data[..n]);
    SlicesOfJoin(front, ToLe(data[n], 2), k);
    if k < n {
      EncodedAt(data[..n], k);
    }
  }

  lemma SlicesOfJoin(a: seq<byte>, b: seq<byte>, k: nat)
    requires |a| % 2 == 0 && |b| == 2 && 2 * k <= |a|
    ensures (a + b)[2 * k..2 * k + 2] == if 2 * k == |a| then b else a[2 * k..2 * k + 2]
  {
  }

  lemma BytesAt(file: seq<byte>, body: seq<byte>, k: nat)
    requires |file| == HEADER_SIZE + |body| && file[HEADER_SIZE..] == body && 2 * k + 2 <= |body|
    ensures file[HEADER_SIZE + 2 * k..HEADER_SIZE + 2 * k + 2] == body[2 * k..2 * k + 2]
  {
    SliceSlice(file, HEADER_SIZE, |file|, 2 * k, 2 * k + 2);
    assert file[HEADER_SIZE..|file|] == file[HEADER_SIZE..];
  }

  lemma SampleAt(file: seq<byte>, all: seq<int16>, k: nat)
    requires k < |all| && |file| == HEADER_SIZE + 2 * |all| && file[HEADER_SIZE..] == Encoded(all)
    ensures Sample(file[HEADER_SIZE + 2 * k..HEADER_SIZE + 2 * k + 2]) == all[k]
  {
    BytesAt(file, Encoded(all), k);
    EncodedAt(all, k);
    SampleRoundTrip(all[k]);
  }

  /** What is read in blocks of the given sizes, starting at sample `at`. */
  function Blocks(data: seq<int16>, at: nat, lens: seq<nat>): (bs: seq<seq<int16>>)
    requires at <= |data|
    decreases |lens|
  {
    if lens == [] then []
    else
      var end := Min(at + lens[0], |data|);
      [data[at..end]] + Blocks(data, end, lens[1..])
  }

  function TotalLen(lens: seq<nat>): (n: nat) {
    if lens == [] then 0 else lens[0] + TotalLen(lens[1..])
  }

  /** Whatever the block sizes, the samples come back in order and none twice. */
  lemma {:induction false} AnyBlocks(data: seq<int16>, at: nat, lens: seq<nat>)
    requires at <= |data|
    ensures Concat(Blocks(data, at, lens)) == data[at..Min(at + TotalLen(lens), |data|)]
    decreases |lens|
  {
    if lens != [] {
      var end := Min(at + lens[0], |data|);
      AnyBlocks(data, end, lens[1..]);
      var last := Min(end + TotalLen(lens[1..]), |data|);
      assert data[at..end] + data[end..last] == data[at..last];
      assert last == Min(at + TotalLen(lens), |data|);
      var bs := Blocks(data, at, lens);
      assert bs[1..] == Blocks(data, end, lens[1..]);
    } else {
      assert data[at..at] == [];
    }
  }

  // ------------------------------------------------------------- the imperative code

  class Writer {
    var file: seq<byte>
    ghost const header: seq<byte>
    ghost var written: seq<int16>

    ghost predicate Valid()
      reads this
    {
      file == header + Encoded(written)
    }

    method Fwrite(bytes: seq<byte>)
      modifies this`file
      ensures file == old(file) + bytes
    {
      file := file + bytes;
    }

    /** The thirteen fwrite calls of open_output_wavfile. */
    method WriteHeader(f: Fields)
      requires Sized(f) && file == []
      modifies this`file
      ensures file == Layout(f)
    {
      Fwrite(RIFF);
      assert file == RIFF;
      Fwrite(f.riffSize);
      Fwrite(WAVE);
      Fwrite(FMT);
      Fwrite(f.fmtSize);
      Fwrite(f.formatType);
      Fwrite(f.channel);
      Fwrite(f.rate);
      Fwrite(f.byteRate);
      Fwrite(f.blockSize);
      Fwrite(f.bits);
      Fwrite(DATA);
      Fwrite(f.dataSize);
    }

    /** open_output_wavfile */
    constructor (fs: int, bits: int, length: int)
      ensures Valid() && header == Header(Info(fs, bits, length)) && written == []
    {
      file, written := [], [];
      header := Header(Info(fs, bits, length));
      new;
      WriteHeader(FieldsOf(Info(fs, bits, length)));
      NothingEncoded(header);
    }

    method WriteSample(v: int16)
      requires Valid()
      modifies this
      ensures Valid() && written == old(written) + [v]
    {
      EncodedSnoc(written, v);
      assert header + (Encoded(written) + ToLe(v, 2)) == (header + Encoded(written)) + ToLe(v, 2);
      Fwrite(ToLe(v, 2));
      written := written + [v];
    }

    method WriteData16(data: seq<int16>)
      requires Valid()
      modifies this
      ensures Valid() && written == old(written) + data
    {
      ghost var before := written;
      for i := 0 to |data|
        invariant Valid() && written == before + data[..i]
      {
        WriteSample(data[i]);
        TakeOneMore(before, data, i);
      }
      assert data[..|data|] == data;
    }
  }

  lemma TakeOneMore(before: seq<int16>, data: seq<int16>, i: nat)
    requires i < |data|
    ensures before + data[..i + 1] == (before + data[..i]) + [data[i]]
  {
  }

  lemma NothingEncoded(header: seq<byte>)
    ensures header + Encoded([]) == header
  {
  }

  lemma EncodedSnoc(data: seq<int16>, v: int16)
    ensures Encoded(data + [v]) == Encoded(data) + ToLe(v, 2)
  {
    assert (data + [v])[..|data|] == data;
  }

  class Reader {
    const file: seq<byte>
    var pos: nat
    var info: Info
    var readLen: nat

    /** open_input_wavfile: the fields are read in file order, most of them dropped. */
    constructor (file: seq<byte>)
      requires |file| >= HEADER_SIZE
      ensures this.file == file && pos == HEADER_SIZE && info == Parsed(file) && readLen == 0
    {
      this.file := file;
      pos, info, readLen := 0, Info(0, 0, 0), 0;
      new;
      var skipped := Fread(24);
      var samplesPerSec := Fread(4);
      var fs := ToInt32(FromLe(samplesPerSec));
      skipped := Fread(4);
      skipped := Fread(2);
      var bitsPerSample := Fread(2);
      var bits := FromLe(bitsPerSample);
      skipped := Fread(4);
      var dataSize := Fread(4);
      info := Info(fs, bits, FromLe(dataSize) / 2);
    }

    method Fread(n: nat) returns (bytes: seq<byte>)
      requires pos + n <= |file|
      modifies this`pos
      ensures bytes == file[old(pos)..old(pos) + n] && pos == old(pos) + n
    {
      bytes := file[pos..pos + n];
      pos := pos + n;
    }

    /** The reader stands at sample readLen of a file that holds these samples. */
    ghost predicate At(data: seq<int16>)
      reads this
    {
      && |file| == HEADER_SIZE + 2 * |data| && file[HEADER_SIZE..] == Encoded(data)
      && info.length == |data| && readLen <= |data| && pos == HEADER_SIZE + 2 * readLen
    }

    /** One fread of a sample. */
    method NextSample(ghost all: seq<int16>) returns (v: int16)
      requires At(all) && readLen < |all|
      modifies this`pos
      ensures v == all[readLen] && pos == old(pos) + 2
    {
      var tmp := Fread(2);
      SampleAt(file, all, readLen);
      v := Sample(tmp);
    }

    /** read_wavdata16: up to len samples into data, and how many. */
    method ReadData16(data: array<int16>, len: nat, ghost all: seq<int16>) returns (i: nat)
      requires At(all) && len <= data.Length
      modifies this`pos, this`readLen, data
      ensures At(all) && i == Min(len, |all| - old(readLen)) && readLen == old(readLen) + i
      ensures data[..i] == all[old(readLen)..readLen]
    {
      i := 0;
      ghost var start := readLen;
      while readLen < info.length && i < len
        invariant At(all) && readLen == start + i && i <= len
        invariant forall k :: 0 <= k < i ==> data[k] == all[start + k]
      {
        var tmp := NextSample(all);
        data[i] := tmp;
        i := i + 1;
        readLen := readLen + 1;
      }
      assert data[..i] == all[start..start + i];
    }
  }

  lemma BodyOfFile(header: seq<byte>, body: seq<byte>)
    requires |header| == HEADER_SIZE
    ensures (header + body)[HEADER_SIZE..] == body && |header + body| == HEADER_SIZE + |body|
  {
  }

  lemma BlocksStep(data: seq<int16>, blocks: seq<seq<int16>>, at: nat, lens: seq<nat>, k: nat)
    requires at <= |data| && k < |lens|
    ensures var end := Min(at + lens[k], |data|);
            blocks + Blocks(data, at, lens[k..]) == (blocks + [data[at..end]]) + Blocks(data, end, lens[k + 1..])
  {
    assert lens[k..][1..] == lens[k + 1..];
  }

  /** One read into a buffer of the caller. */
  method ReadBlock(r: Reader, len: nat, ghost data: seq<int16>) returns (block: seq<int16>)
    requires r.At(data)
    modifies r
    ensures r.At(data) && r.readLen == Min(old(r.readLen) + len, |data|)
    ensures block == data[old(r.readLen)..r.readLen]
  {
    var buffer := new int16[len](_ => 0);
    var i := r.ReadData16(buffer, len, data);
    block := buffer[..i];
  }

  /** Reads of the given sizes, one after the other. */
  method ReadBlocks(r: Reader, lens: seq<nat>, ghost data: seq<int16>) returns (blocks: seq<seq<int16>>)
    requires r.At(data)
    modifies r
    ensures r.At(data) && blocks == Blocks(data, old(r.readLen), lens)
  {
    blocks := [];
    ghost var all := Blocks(data, r.readLen, lens);
    assert lens[0..] == lens;
    for k := 0 to |lens|
      invariant r.At(data)
      invariant all == blocks + Blocks(data, r.readLen, lens[k..])
    {
      ghost var at := r.readLen;
      BlocksStep(data, blocks, at, lens, k);
      var block := ReadBlock(r, lens[k], data);
      assert block == data[at..Min(at + lens[k], |data|)];
      blocks := blocks + [block];
    }
  }

  /** A file written with this code and read back with it, in blocks of any sizes: the
      same rate, width and length, and the samples cut into exactly those blocks. */
  method WriteThenRead(fs: int, bits: int, data: seq<int16>, lens: seq<nat>)
    returns (info: Info, blocks: seq<seq<int16>>)
    requires -0x8000_0000 <= fs < 0x8000_0000 && 0 <= bits < 0x1_0000 && |data| < 0x8000_0000
    ensures info == Info(fs, bits, |data|)
    ensures blocks == Blocks(data, 0, lens)
  {
    var w := new Writer(fs, bits, |data|);
    w.WriteData16(data);
    assert [] + data == data;
    HeaderRoundTrip(Info(fs, bits, |data|), Encoded(data));
    BodyOfFile(w.header, Encoded(data));
    var r := new Reader(w.file);
    info := r.info;
    blocks := ReadBlocks(r, lens, data);
  }
}
