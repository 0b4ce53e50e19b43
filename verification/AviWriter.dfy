/**
 * The recorder's writer: a header that can be trusted at any moment, chunks appended behind it, four running
 * fields patched in place, and an index at the end. The card sees it as a trace of single bytes written in
 * order; a power cut keeps some prefix of that trace.
 */
module AviWriter {
  import opened Bytes
  import opened AviFormat

  const SUGGESTED_BUF: nat := 256 * 1024
  const AVIH: seq<byte> := [0x61, 0x76, 0x69, 0x68]
  const HDRL: seq<byte> := [0x68, 0x64, 0x72, 0x6C]
  const STRL: seq<byte> := [0x73, 0x74, 0x72, 0x6C]
  const STRH: seq<byte> := [0x73, 0x74, 0x72, 0x68]
  const STRF: seq<byte> := [0x73, 0x74, 0x72, 0x66]
  const VIDS: seq<byte> := [0x76, 0x69, 0x64, 0x73]
  const MJPG: seq<byte> := [0x4D, 0x4A, 0x50, 0x47]
  const MOVI: seq<byte> := [0x6D, 0x6F, 0x76, 0x69]

  /** What avi_start is told; widths are those of the C parameters. */
  datatype Geometry = Geometry(w: nat, h: nat, rate: nat, scale: nat) {
    predicate Valid() {
      w < 0x1_0000 && h < 0x1_0000 && 0 < rate < TWO_32 && 0 < scale < TWO_32
    }
  }

  /** The fields of the header that are patched while the clip grows. */
  datatype Fields = Fields(riff: nat, flags: nat, total: nat, length: nat, movi: nat)

  /** Two 16-bit values in one 32-bit word. */
  function Halves(lo: nat, hi: nat): Quad {
    Put32(lo % 0x1_0000 + 0x1_0000 * hi)
  }

  function Micros(rate: nat, scale: nat): nat
    requires rate > 0
  {
    1_000_000 * scale / rate
  }

  /** The byte rate a player is told to expect: three bytes a pixel, divided by four. The product is 64 bits wide. */
  function MaxRate(pixels: nat, rate: nat, scale: nat): nat
    requires scale > 0
  {
    pixels * 3 * rate % 0x1_0000_0000_0000_0000 / scale / 4
  }

  /** A word of the header. */
  type Quad = s: seq<byte> | |s| == 4 witness [0, 0, 0, 0]

  function Num(v: nat): Quad {
    Put32(v)
  }

  function Cat(ws: seq<Quad>): (r: seq<byte>)
    ensures |r| == 4 * |ws|
  {
    if ws == [] then [] else ws[0] + Cat(ws[1..])
  }

  lemma {:induction false} CatAt(ws: seq<Quad>, k: nat)
    requires k < |ws|
    ensures Cat(ws)[4 * k..4 * k + 4] == ws[k]
  {
    if k > 0 {
      CatAt(ws[1..], k - 1);
      assert Cat(ws)[4 * k..4 * k + 4] == Cat(ws[1..])[4 * (k - 1)..4 * (k - 1) + 4];
    }
  }

  /** Bytes 8 to 43, up to the main header's flags. */
  function MainFront(g: Geometry): (r: seq<Quad>)
    requires g.Valid()
    ensures |r| == 9
  {
    [AVI, LIST, Num(192), HDRL, AVIH, Num(56), Num(Micros(g.rate, g.scale)), Num(MaxRate(g.w * g.h, g.rate, g.scale)), Num(0)]
  }

  /** Bytes 52 to 139: the rest of the main header and the stream header up to its length. */
  function MainBack(g: Geometry): (r: seq<Quad>)
    requires g.Valid()
    ensures |r| == 22
  {
    [Num(0), Num(1), Num(SUGGESTED_BUF), Num(g.w), Num(g.h), Num(0), Num(0), Num(0), Num(0),
     LIST, Num(116), STRL, STRH, Num(56), VIDS, MJPG, Num(0), Num(0), Num(0), Num(g.scale), Num(g.rate), Num(0)]
  }

  /** Bytes 144 to 215: the rest of the stream header and the format. */
  function Format(g: Geometry): (r: seq<Quad>)
    requires g.Valid()
    ensures |r| == 18
  {
    [Num(SUGGESTED_BUF), Num(0xFFFF_FFFF), Num(0), Num(0), Halves(g.w, g.h),
     STRF, Num(40), Num(40), Num(g.w), Num(g.h), Halves(1, 24), MJPG, Num(g.w * g.h * 3), Num(0), Num(0), Num(0), Num(0), LIST]
  }

  /** The 224 bytes of the header. */
  function Header(g: Geometry, p: Fields): (r: seq<byte>)
    requires g.Valid()
    ensures |r| == HDR_SIZE
  {
    RIFF + Put32(p.riff) + Cat(MainFront(g)) + (Put32(p.flags) + Put32(p.total)) + Cat(MainBack(g)) + Put32(p.length)
    + Cat(Format(g)) + (Put32(p.movi) + MOVI)
  }

  /** Each patched field is where it should be. */
  lemma HeaderFields(g: Geometry, p: Fields)
    requires g.Valid()
    ensures var h := Header(g, p);
      && Tag(h, 0, RIFF) && Tag(h, 8, AVI)
      && h[4..8] == Put32(p.riff) && h[44..48] == Put32(p.flags) && h[48..52] == Put32(p.total)
      && h[140..144] == Put32(p.length) && h[216..220] == Put32(p.movi)
      && h[8..44] == Cat(MainFront(g)) && h[52..140] == Cat(MainBack(g)) && h[144..216] == Cat(Format(g)) && h[220..224] == MOVI
  {
    hide Put32, MainFront, MainBack, Format, Tag, Cat;
    var h := Header(g, p);
    var front := RIFF + Put32(p.riff) + Cat(MainFront(g)) + (Put32(p.flags) + Put32(p.total)) + Cat(MainBack(g));
    var back := Put32(p.length) + Cat(Format(g)) + (Put32(p.movi) + MOVI);
    assert h == front + back;
    assert back[0..4] == Put32(p.length) && back[4..76] == Cat(Format(g)) && back[76..80] == Put32(p.movi) && back[80..84] == MOVI;
    assert forall a, b :: 0 <= a <= b <= 84 ==> h[140 + a..140 + b] == back[a..b];
    TagIs(h, 0, RIFF);
    Words(h, 8, MainFront(g));
    FormType(g);
    TagIs(h, 8, AVI);
  }

  lemma FormType(g: Geometry)
    requires g.Valid()
    ensures MainFront(g)[0] == AVI
  {
  }

  /** A part of the header written word by word is read word by word. */
  lemma Words(h: seq<byte>, from: nat, ws: seq<Quad>)
    requires from + 4 * |ws| <= |h| && h[from..from + 4 * |ws|] == Cat(ws)
    ensures forall k :: 0 <= k < |ws| ==> h[from + 4 * k..from + 4 * k + 4] == ws[k]
  {
    forall k | 0 <= k < |ws| ensures h[from + 4 * k..from + 4 * k + 4] == ws[k] {
      WordAt(h, from, ws, k);
    }
  }

  lemma WordAt(h: seq<byte>, from: nat, ws: seq<Quad>, k: nat)
    requires from + 4 * |ws| <= |h| && h[from..from + 4 * |ws|] == Cat(ws) && k < |ws|
    ensures h[from + 4 * k..from + 4 * k + 4] == ws[k]
  {
    hide Cat;
    var at, end := 4 * k, 4 * |ws|;
    CatAt(ws, k);
    Sub(h, from, from + end, at, at + 4);
  }

  lemma TagIs(h: seq<byte>, at: nat, tag: seq<byte>)
    requires at + 4 <= |h| && |tag| == 4 && h[at..at + 4] == tag
    ensures Tag(h, at, tag)
  {
    assert h[at] == h[at..at + 4][0] && h[at + 1] == h[at..at + 4][1] && h[at + 2] == h[at..at + 4][2] && h[at + 3] == h[at..at + 4][3];
  }

  lemma NumIs(h: seq<byte>, at: nat, v: nat)
    requires at + 4 <= |h| && h[at..at + 4] == Num(v)
    ensures Get32(h, at) == v % TWO_32
  {
    hide Put32, Get32;
    GetInside(h, at, Put32(v));
    GetPut32(v);
  }

  /** Two numbers of 16 bits share a word, the first one in its lower half. */
  lemma HalvesAre(h: seq<byte>, at: nat, lo: nat, hi: nat)
    requires at + 4 <= |h| && lo < 0x1_0000 && hi < 0x1_0000 && h[at..at + 4] == Halves(lo, hi)
    ensures Get32(h, at) == lo + 0x1_0000 * hi
  {
    hide Put32, Get32;
    NumIs(h, at, lo + 0x1_0000 * hi);
  }

  /** The main header as a reader finds it. */
  lemma MainHeaderAt(g: Geometry, p: Fields)
    requires g.Valid()
    ensures var h := Header(g, p);
      && Tag(h, 0, RIFF) && Tag(h, 8, AVI) && Tag(h, 12, LIST) && Tag(h, 20, HDRL) && Tag(h, 24, AVIH)
      && Get32(h, 16) == 192 && Get32(h, 28) == 56
      && Get32(h, 32) == 1_000_000 * g.scale / g.rate % TWO_32
      && Get32(h, 36) == g.w * g.h * 3 * g.rate % (TWO_32 * TWO_32) / g.scale / 4 % TWO_32
      && Get32(h, 40) == Get32(h, 52) == 0 && Get32(h, 56) == 1 && Get32(h, 60) == 256 * 1024
      && Get32(h, 64) == g.w && Get32(h, 68) == g.h
      && Get32(h, 72) == Get32(h, 76) == Get32(h, 80) == Get32(h, 84) == 0
  {
    hide Put32, Get32, Tag, Header, Cat, Num, Micros, MaxRate;
    var h, f, b := Header(g, p), MainFront(g), MainBack(g);
    HeaderFields(g, p);
    Words(h, 8, f);
    Words(h, 52, b);
    RatesAre(g.w * g.h, g.rate, g.scale);
    assert h[12..16] == f[1] && h[16..20] == f[2] && h[20..24] == f[3] && h[24..28] == f[4] && h[28..32] == f[5];
    assert h[32..36] == f[6] && h[36..40] == f[7] && h[40..44] == f[8];
    TagIs(h, 12, LIST);
    TagIs(h, 20, HDRL);
    TagIs(h, 24, AVIH);
    NumIs(h, 16, 192);
    NumIs(h, 28, 56);
    NumIs(h, 32, Micros(g.rate, g.scale));
    NumIs(h, 36, MaxRate(g.w * g.h, g.rate, g.scale));
    NumIs(h, 40, 0);
    assert h[52..56] == b[0] && h[56..60] == b[1] && h[60..64] == b[2] && h[64..68] == b[3] && h[68..72] == b[4];
    assert h[72..76] == b[5] && h[76..80] == b[6] && h[80..84] == b[7] && h[84..88] == b[8];
    NumIs(h, 52, 0);
    NumIs(h, 56, 1);
    NumIs(h, 60, SUGGESTED_BUF);
    NumIs(h, 64, g.w);
    NumIs(h, 68, g.h);
    NumIs(h, 72, 0);
    NumIs(h, 76, 0);
    NumIs(h, 80, 0);
    NumIs(h, 84, 0);
  }

  lemma RatesAre(pixels: nat, rate: nat, scale: nat)
    requires rate > 0 && scale > 0
    ensures Micros(rate, scale) == 1_000_000 * scale / rate
    ensures MaxRate(pixels, rate, scale) == pixels * 3 * rate % (TWO_32 * TWO_32) / scale / 4
  {
  }

  /** The stream header as a reader finds it: the scale before the rate. */
  lemma StreamHeaderAt(g: Geometry, p: Fields)
    requires g.Valid()
    ensures var h := Header(g, p);
      && Tag(h, 88, LIST) && Get32(h, 92) == 116 && Tag(h, 96, STRL) && Tag(h, 100, STRH) && Get32(h, 104) == 56
      && Tag(h, 108, VIDS) && Tag(h, 112, MJPG) && Get32(h, 116) == Get32(h, 120) == Get32(h, 124) == 0
      && Get32(h, 128) == g.scale && Get32(h, 132) == g.rate && Get32(h, 136) == 0
      && Get32(h, 144) == 256 * 1024 && Get32(h, 148) == 0xFFFF_FFFF && Get32(h, 152) == Get32(h, 156) == 0
      && Get32(h, 160) == g.w + 0x1_0000 * g.h
  {
    hide Put32, Get32, Tag, Header, Cat, Num, Halves;
    var h, b, f := Header(g, p), MainBack(g), Format(g);
    HeaderFields(g, p);
    Words(h, 52, b);
    Words(h, 144, f);
    assert h[88..92] == b[9] && h[92..96] == b[10] && h[96..100] == b[11] && h[100..104] == b[12] && h[104..108] == b[13];
    assert h[108..112] == b[14] && h[112..116] == b[15] && h[116..120] == b[16] && h[120..124] == b[17] && h[124..128] == b[18];
    assert h[128..132] == b[19] && h[132..136] == b[20] && h[136..140] == b[21];
    TagIs(h, 88, LIST);
    TagIs(h, 96, STRL);
    TagIs(h, 100, STRH);
    TagIs(h, 108, VIDS);
    TagIs(h, 112, MJPG);
    NumIs(h, 92, 116);
    NumIs(h, 104, 56);
    NumIs(h, 116, 0);
    NumIs(h, 120, 0);
    NumIs(h, 124, 0);
    NumIs(h, 128, g.scale);
    NumIs(h, 132, g.rate);
    NumIs(h, 136, 0);
    assert h[144..148] == f[0] && h[148..152] == f[1] && h[152..156] == f[2] && h[156..160] == f[3] && h[160..164] == f[4];
    NumIs(h, 144, SUGGESTED_BUF);
    NumIs(h, 148, 0xFFFF_FFFF);
    NumIs(h, 152, 0);
    NumIs(h, 156, 0);
    HalvesAre(h, 160, g.w, g.h);
  }

  /** The format of the pictures. */
  lemma FormatAt(g: Geometry, p: Fields)
    requires g.Valid()
    ensures var h := Header(g, p);
      && Tag(h, 164, STRF) && Get32(h, 168) == Get32(h, 172) == 40 && Get32(h, 176) == g.w && Get32(h, 180) == g.h
  {
    hide Put32, Get32, Tag, Header, Cat, Num, Halves;
    var h, f := Header(g, p), Format(g);
    HeaderFields(g, p);
    Words(h, 144, f);
    assert h[164..168] == f[5] && h[168..172] == f[6] && h[172..176] == f[7] && h[176..180] == f[8] && h[180..184] == f[9];
    TagIs(h, 164, STRF);
    NumIs(h, 168, 40);
    NumIs(h, 172, 40);
    NumIs(h, 176, g.w);
    NumIs(h, 180, g.h);
  }

  /** How they are compressed, and the list the chunks are in. */
  lemma CompressionAt(g: Geometry, p: Fields)
    requires g.Valid()
    ensures var h := Header(g, p);
      && Get32(h, 184) == 1 + 0x1_0000 * 24 && Tag(h, 188, MJPG) && Get32(h, 192) == g.w * g.h * 3 % TWO_32
      && Get32(h, 196) == Get32(h, 200) == Get32(h, 204) == Get32(h, 208) == 0 && Tag(h, 212, LIST) && Tag(h, 220, MOVI)
  {
    hide Put32, Get32, Tag, Header, Cat, Num, Halves;
    var h, f := Header(g, p), Format(g);
    HeaderFields(g, p);
    Words(h, 144, f);
    assert h[184..188] == f[10] && h[188..192] == f[11] && h[192..196] == f[12] && h[196..200] == f[13] && h[200..204] == f[14];
    assert h[204..208] == f[15] && h[208..212] == f[16] && h[212..216] == f[17];
    TagIs(h, 188, MJPG);
    TagIs(h, 212, LIST);
    TagIs(h, 220, MOVI);
    HalvesAre(h, 184, 1, 24);
    NumIs(h, 192, g.w * g.h * 3);
    NumIs(h, 196, 0);
    NumIs(h, 200, 0);
    NumIs(h, 204, 0);
    NumIs(h, 208, 0);
  }

  /** The tags as they are spelt. */
  lemma TagsSpelt()
    ensures RIFF == Ascii("RIFF") && AVI == Ascii("AVI ") && LIST == Ascii("LIST") && HDRL == Ascii("hdrl") && AVIH == Ascii("avih")
    ensures STRL == Ascii("strl") && STRH == Ascii("strh") && STRF == Ascii("strf") && VIDS == Ascii("vids") && MJPG == Ascii("MJPG")
    ensures MOVI == Ascii("movi") && DC == Ascii("00dc") && IDX1 == Ascii("idx1") && JUNK == Ascii("JUNK")
  {
    hide Ascii;
    Spelt(RIFF, "RIFF");
    Spelt(AVI, "AVI ");
    Spelt(LIST, "LIST");
    Spelt(HDRL, "hdrl");
    Spelt(AVIH, "avih");
    Spelt(STRL, "strl");
    Spelt(STRH, "strh");
    Spelt(STRF, "strf");
    Spelt(VIDS, "vids");
    Spelt(MJPG, "MJPG");
    Spelt(MOVI, "movi");
    Spelt(DC, "00dc");
    Spelt(IDX1, "idx1");
    Spelt(JUNK, "JUNK");
  }

  lemma Spelt(tag: seq<byte>, text: string)
    requires |text| == 4 && |tag| == 4 && forall i :: 0 <= i < 4 ==> tag[i] as int == text[i] as int
    ensures tag == Ascii(text)
  {
  }

  /** Headers of one recording differ in the patched fields only. */
  lemma HeadersAgree(g: Geometry, p: Fields, q: Fields)
    requires g.Valid()
    ensures forall i :: 0 <= i < HDR_SIZE && !Patched(i) ==> Header(g, p)[i] == Header(g, q)[i]
  {
    hide Put32, MainFront, MainBack, Format, Header, Cat;
    var h, k := Header(g, p), Header(g, q);
    HeaderFields(g, p);
    HeaderFields(g, q);
    forall i | 0 <= i < HDR_SIZE && !Patched(i) ensures h[i] == k[i] {
      if 8 <= i < 44 {
        assert h[8..44][i - 8] == k[8..44][i - 8];
      } else if 52 <= i < 140 {
        assert h[52..140][i - 52] == k[52..140][i - 52];
      } else if 144 <= i < 216 {
        assert h[144..216][i - 144] == k[144..216][i - 144];
      } else if 220 <= i {
        assert h[220..224][i - 220] == k[220..224][i - 220];
      }
    }
  }
}
