/**
 * The output side of the build (`src/main.rs`): pages become UTF-8 bytes, and
 * a writer writes a buffer only when its fingerprint differs from the file
 * already at the destination.
 */
module Output {
  import opened Wrappers

  newtype byte = b: int | 0 <= b < 0x100

  type Bytes = seq<byte>

  /** A content fingerprint (the build uses BLAKE3). */
  type Digest = seq<byte>

  /** A continuation byte, `10xxxxxx`. */
  predicate IsCont(x: byte) {
    0x80 <= x < 0xC0
  }

  /**
   * How many bytes a well-formed UTF-8 sequence starting with `x` takes, or 0
   * when `x` cannot start one (a continuation byte, an overlong two-byte lead,
   * or a lead beyond U+10FFFF).
   */
  function LeadWidth(x: byte): nat {
    if x < 0x80 then 1
    else if 0xC2 <= x < 0xE0 then 2
    else if 0xE0 <= x < 0xF0 then 3
    else if 0xF0 <= x < 0xF5 then 4
    else 0
  }

  /** How many bytes UTF-8 uses for code point `n`. */
  function Width(n: int): nat {
    if n < 0x80 then 1 else if n < 0x800 then 2 else if n < 0x1_0000 then 3 else 4
  }

  /** A lead byte followed by the continuation bytes it announces. */
  predicate Framed(b: Bytes) {
    1 <= |b| <= 4 && LeadWidth(b[0]) == |b| && forall i :: 1 <= i < |b| ==> IsCont(b[i])
  }

  /** The code point a framed sequence carries: the payload bits of each byte, most significant first. */
  function Scalar(b: Bytes): (n: int)
    requires Framed(b)
    ensures 0 <= n
  {
    var p := b[0] as int;
    if |b| == 1 then p
    else if |b| == 2 then (p - 0xC0) * 0x40 + (b[1] as int - 0x80)
    else if |b| == 3 then (p - 0xE0) * 0x1000 + (b[1] as int - 0x80) * 0x40 + (b[2] as int - 0x80)
    else (p - 0xF0) * 0x4_0000 + (b[1] as int - 0x80) * 0x1000 + (b[2] as int - 0x80) * 0x40 + (b[3] as int - 0x80)
  }

  /** The UTF-8 encoding of one character: the shortest framed sequence carrying its code point. */
  function EncodeChar(c: char): (r: Bytes)
    ensures Framed(r) && |r| == Width(c as int)
    ensures Scalar(r) == c as int
  {
    var n := c as int;
    if n < 0x80 then [n as byte]
    else if n < 0x800 then Encode2(n)
    else if n < 0x1_0000 then Encode3(n)
    else Encode4(n)
  }

  /** Two bytes: five payload bits, then six. */
  function Encode2(n: int): (r: Bytes)
    requires 0x80 <= n < 0x800
    ensures Framed(r) && |r| == 2 && Scalar(r) == n
  {
    [(0xC0 + n / 0x40) as byte, (0x80 + n % 0x40) as byte]
  }

  /** Three bytes: four payload bits, then six and six. */
  function Encode3(n: int): (r: Bytes)
    requires 0x800 <= n < 0x1_0000
    ensures Framed(r) && |r| == 3 && Scalar(r) == n
  {
    var q := n / 0x40;
    [(0xE0 + q / 0x40) as byte, (0x80 + q % 0x40) as byte, (0x80 + n % 0x40) as byte]
  }

  /** Four bytes: three payload bits, then six, six and six. */
  function Encode4(n: int): (r: Bytes)
    requires 0x1_0000 <= n < 0x11_0000
    ensures Framed(r) && |r| == 4 && Scalar(r) == n
  {
    var q := n / 0x40;
    var q2 := q / 0x40;
    [(0xF0 + q2 / 0x40) as byte, (0x80 + q2 % 0x40) as byte, (0x80 + q % 0x40) as byte, (0x80 + n % 0x40) as byte]
  }

  /** `str::as_bytes`: the UTF-8 encoding of a string. */
  function AsBytes(s: string): (r: Bytes)
    ensures |r| >= |s|
    ensures r == [] <==> s == []
  {
    if s == [] then [] else EncodeChar(s[0]) + AsBytes(s[1..])
  }

  /**
   * Decodes the character at the front of `b` and the number of bytes it
   * takes; `None` when `b` does not start with well-formed UTF-8 (a bad lead,
   * a missing continuation, an overlong form, a surrogate or a value above
   * U+10FFFF).
   */
  function DecodeChar(b: Bytes): (r: Option<(char, nat)>)
    requires |b| > 0
    ensures r.Some? ==> 1 <= r.value.1 <= |b| && r.value.1 == LeadWidth(b[0])
    ensures r.Some? ==> Framed(b[..r.value.1]) && r.value.0 as int == Scalar(b[..r.value.1])
    ensures b[0] < 0x80 ==> r == Some((b[0] as int as char, 1))
    ensures IsCont(b[0]) || b[0] >= 0xF5 ==> r.None?
  {
    var k := LeadWidth(b[0]);
    if k == 0 || |b| < k || !Framed(b[..k]) then None
    else
      var n := Scalar(b[..k]);
      if Width(n) == k && !(0xD800 <= n < 0xE000) && n < 0x11_0000 then Some((n as char, k)) else None
  }

  /** `String::from_utf8`, the check `fs::read_to_string` makes: the text, or `None` for bytes that are not UTF-8. */
  function Decode(b: Bytes): (r: Option<string>)
    ensures r.Some? ==> |r.value| <= |b|
    ensures (forall i :: 0 <= i < |b| ==> b[i] < 0x80) ==>
      r.Some? && |r.value| == |b| && forall i :: 0 <= i < |b| ==> r.value[i] as int == b[i] as int
    decreases |b|
  {
    if b == [] then Some([])
    else match DecodeChar(b)
      case None => None
      case Some((c, k)) =>
        match Decode(b[k..])
        case None => None
        case Some(s) => Some([c] + s)
  }

  /** A number has one representation as `hi * 0x40 + lo` with `lo` a six-bit digit. */
  lemma SixBitDigits(hi1: int, lo1: int, hi2: int, lo2: int)
    requires 0 <= lo1 < 0x40 && 0 <= lo2 < 0x40
    requires hi1 * 0x40 + lo1 == hi2 * 0x40 + lo2
    ensures hi1 == hi2 && lo1 == lo2
  {
  }

  /** Two framed sequences of one length carrying one code point are the same bytes. */
  lemma ScalarUnique(a: Bytes, b: Bytes)
    requires Framed(a) && Framed(b) && |a| == |b| && Scalar(a) == Scalar(b)
    ensures a == b
  {
    var p := seq(|a|, i requires 0 <= i < |a| => a[i] as int - (if i == 0 then 0 else 0x80));
    var q := seq(|b|, i requires 0 <= i < |b| => b[i] as int - (if i == 0 then 0 else 0x80));
    if |a| == 2 {
      SixBitDigits(p[0], p[1], q[0], q[1]);
    } else if |a| == 3 {
      SixBitDigits(p[0] * 0x40 + p[1], p[2], q[0] * 0x40 + q[1], q[2]);
      SixBitDigits(p[0], p[1], q[0], q[1]);
    } else if |a| == 4 {
      SixBitDigits((p[0] * 0x40 + p[1]) * 0x40 + p[2], p[3], (q[0] * 0x40 + q[1]) * 0x40 + q[2], q[3]);
      SixBitDigits(p[0] * 0x40 + p[1], p[2], q[0] * 0x40 + q[1], q[2]);
      SixBitDigits(p[0], p[1], q[0], q[1]);
    }
    assert forall i :: 0 <= i < |a| ==> a[i] as int == p[i] + (if i == 0 then 0 else 0x80);
  }

  /** Decoding the encoding of a character gives the character and its width. */
  lemma DecodeEncodeChar(c: char, rest: Bytes)
    ensures DecodeChar(EncodeChar(c) + rest) == Some((c, |EncodeChar(c)|))
  {
    var e := EncodeChar(c);
    var b := e + rest;
    assert b[..|e|] == e;
  }

  /** A decoded character encodes back to the bytes it was decoded from. */
  lemma EncodeDecodeChar(b: Bytes)
    requires |b| > 0 && DecodeChar(b).Some?
    ensures EncodeChar(DecodeChar(b).value.0) == b[..DecodeChar(b).value.1]
  {
    var (c, k) := DecodeChar(b).value;
    ScalarUnique(EncodeChar(c), b[..k]);
  }

  /** Every string's encoding is UTF-8 and decodes back to the string. */
  lemma {:induction false} DecodeAsBytes(s: string)
    ensures Decode(AsBytes(s)) == Some(s)
    decreases |s|
  {
    if s != [] {
      var e := EncodeChar(s[0]);
      DecodeEncodeChar(s[0], AsBytes(s[1..]));
      assert (e + AsBytes(s[1..]))[|e|..] == AsBytes(s[1..]);
      DecodeAsBytes(s[1..]);
      assert [s[0]] + s[1..] == s;
    }
  }

  /** Bytes that decode are the encoding of what they decode to. */
  lemma {:induction false} AsBytesDecode(b: Bytes)
    requires Decode(b).Some?
    ensures AsBytes(Decode(b).value) == b
    decreases |b|
  {
    if b != [] {
      var k := DecodeStep(b);
      var c := DecodeChar(b).value.0;
      var t := Decode(b[k..]).value;
      calc {
        AsBytes(Decode(b).value);
        AsBytes([c] + t);
        { AsBytesCons(c, t); }
        EncodeChar(c) + AsBytes(t);
        { EncodeDecodeChar(b); AsBytesDecode(b[k..]); }
        b[..k] + b[k..];
        { assert b[..k] + b[k..] == b; }
        b;
      }
    }
  }

  /** A decodable non-empty sequence is its first character followed by the decoding of the rest. */
  lemma DecodeStep(b: Bytes) returns (k: nat)
    requires b != [] && Decode(b).Some?
    ensures DecodeChar(b).Some? && k == DecodeChar(b).value.1 && k <= |b|
    ensures Decode(b[k..]).Some? && Decode(b).value == [DecodeChar(b).value.0] + Decode(b[k..]).value
  {
    k := DecodeChar(b).value.1;
  }

  /** The encoding of a string is the encoding of its first character followed by that of the rest. */
  lemma AsBytesCons(c: char, t: string)
    ensures AsBytes([c] + t) == EncodeChar(c) + AsBytes(t)
  {
    assert ([c] + t)[0] == c && ([c] + t)[1..] == t;
  }

  /** The files of the output tree: path to contents. */
  class FileSystem {
    var files: map<string, Bytes>

    constructor (files: map<string, Bytes>)
      ensures this.files == files
    {
      this.files := files;
    }
  }

  /** Why `write_if_different` gives up: the file at `path` exists but is not UTF-8 text. */
  datatype WriteError = NotText(path: string)

  /**
   * Whether the file at `path` exists, reads as text, and the bytes of that
   * text have the fingerprint of `buf`.
   */
  predicate SameFingerprint(buf: Bytes, path: string, files: map<string, Bytes>, hash: Bytes -> Digest)
  {
    path in files && Decode(files[path]).Some? && hash(buf) == hash(AsBytes(Decode(files[path]).value))
  }

  /** An open file handle; `written` is what went through it. */
  class Writer {
    var written: Bytes

    constructor ()
      ensures written == []
    {
      written := [];
    }

    /**
     * `write_if_different`: reads the destination back as text when it exists
     * (giving up when it is not UTF-8), and sends the buffer out unless the
     * two fingerprints agree.
     */
    method WriteIfDifferent(buf: Bytes, path: string, fs: FileSystem, hash: Bytes -> Digest)
      returns (r: Result<(), WriteError>)
      modifies this
      ensures r.Failure? <==> path in fs.files && Decode(fs.files[path]).None?
      ensures r.Failure? ==> r.error == NotText(path) && written == old(written)
      ensures r.Success? ==>
        written == if SameFingerprint(buf, path, fs.files, hash) then old(written) else old(written) + buf
    {
      if path in fs.files {
        var text := Decode(fs.files[path]);
        if text.None? {
          return Failure(NotText(path));
        }
        if hash(buf) == hash(AsBytes(text.value)) {
          return Success(());
        }
      }
      written := written + buf;
      return Success(());
    }
  }

  /**
   * With a fingerprint free of collisions, the write of a page's text is skipped
   * exactly when the destination exists and holds the same bytes.
   */
  lemma SkipOnlyIfSame(page: string, path: string, files: map<string, Bytes>, hash: Bytes -> Digest)
    requires forall a: Bytes, b: Bytes :: hash(a) == hash(b) ==> a == b
    ensures SameFingerprint(AsBytes(page), path, files, hash) <==> path in files && files[path] == AsBytes(page)
  {
    if path in files && Decode(files[path]).Some? {
      AsBytesDecode(files[path]);
    }
    DecodeAsBytes(page);
  }
}
