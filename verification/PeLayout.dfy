/**
 * PE files as an assembler lays them out, and the round trip: the parser reports of a file
 * exactly what was put into its headers. Also what a packer's name is, spelled out, and what the
 * entropy figures are worth.
 */
module PeLayouts {
  import opened Options
  import opened Words
  import opened PeTriage

  /** A section header: `space` holds the virtual size and address, `rest` what follows the two raw fields. */
  datatype Section = Section(name: seq<Byte>, space: seq<Byte>, rawSize: nat, pointer: nat, rest: seq<Byte>)

  predicate ValidSection(s: Section) {
    && |s.name| <= 8 && (forall i :: 0 <= i < |s.name| ==> s.name[i] != 0)
    && |s.space| == 8 && |s.rest| == 16
    && s.rawSize < 0x1_0000_0000 && s.pointer < 0x1_0000_0000
  }

  /** The name padded with NULs to eight bytes, then the fields, 40 bytes in all. */
  function Encoded(s: Section): (r: seq<Byte>)
    requires ValidSection(s)
    ensures |r| == 40
  {
    s.name + Zeros(8 - |s.name|) + s.space + Pack(s.rawSize, DWORD) + Pack(s.pointer, DWORD) + s.rest
  }

  function Zeros(n: nat): (r: seq<Byte>)
    ensures |r| == n
  {
    seq(n, _ => 0)
  }

  /** A file: `gap` lies between the DOS header and the signature, `body` after the section table. */
  datatype Image = Image(dos: seq<Byte>, gap: seq<Byte>, machine: seq<Byte>, stamp: seq<Byte>, flags: seq<Byte>,
                         optional: seq<Byte>, sections: seq<Section>, body: seq<Byte>)

  predicate Valid(x: Image) {
    && |x.dos| == 58 && 64 + |x.gap| < 0x1_0000_0000
    && |x.machine| == 2 && |x.stamp| == 12 && |x.flags| == 2
    && 2 <= |x.optional| < 0x1_0000 && |x.sections| < 0x1_0000
    && forall i :: 0 <= i < |x.sections| ==> ValidSection(x.sections[i])
  }

  function DosHeader(x: Image): (r: seq<Byte>)
    requires Valid(x)
    ensures |r| == 64
  {
    [0x4D, 0x5A] + x.dos + Pack(64 + |x.gap|, DWORD)
  }

  function FileHeader(x: Image): (r: seq<Byte>)
    requires Valid(x)
    ensures |r| == 24
  {
    [0x50, 0x45, 0, 0] + x.machine + Pack(|x.sections|, 2) + x.stamp + Pack(|x.optional|, 2) + x.flags
  }

  function Table(sections: seq<Section>): (r: seq<Byte>)
    requires forall i :: 0 <= i < |sections| ==> ValidSection(sections[i])
    ensures |r| == 40 * |sections|
  {
    if sections == [] then [] else Table(sections[..|sections| - 1]) + Encoded(sections[|sections| - 1])
  }

  function Layout(x: Image): seq<Byte>
    requires Valid(x)
  {
    DosHeader(x) + x.gap + FileHeader(x) + x.optional + Table(x.sections) + x.body
  }

  // ---------- Where the parts are ----------

  /** The part stands at that offset. */
  predicate At(d: seq<Byte>, o: nat, part: seq<Byte>) {
    o + |part| <= |d| && d[o..o + |part|] == part
  }

  lemma Tail(a: seq<Byte>, part: seq<Byte>)
    ensures At(a + part, |a|, part)
  {
  }

  lemma Part(d: seq<Byte>, a: nat, b: nat)
    requires a <= b <= |d|
    ensures At(d, a, d[a..b])
  {
  }

  lemma Grow(d: seq<Byte>, o: nat, part: seq<Byte>, more: seq<Byte>)
    requires At(d, o, part)
    ensures At(d + more, o, part)
  {
  }

  lemma ByteAt(d: seq<Byte>, o: nat, part: seq<Byte>, k: nat)
    requires At(d, o, part) && k < |part|
    ensures o + k < |d| && d[o + k] == part[k]
  {
    assert d[o..o + |part|][k] == part[k];
  }

  lemma Inside(d: seq<Byte>, o: nat, part: seq<Byte>, k: nat, piece: seq<Byte>)
    requires At(d, o, part) && At(part, k, piece)
    ensures At(d, o + k, piece)
  {
    var found := d[o + k..o + k + |piece|];
    forall j | 0 <= j < |piece| ensures found[j] == piece[j] {
      ByteAt(part, k, piece, j);
      ByteAt(d, o, part, k + j);
    }
  }

  lemma WordAt(d: seq<Byte>, o: nat, v: nat)
    requires At(d, o, Pack(v, 2)) && v < 0x1_0000
    ensures U16(d, o) == v
  {
    var w := Pack(v, 2);
    UnpackPack(v, 2);
    Powers();
    UnpackTwo(w);
    ByteAt(d, o, w, 0);
    ByteAt(d, o, w, 1);
  }

  lemma DwordAt(d: seq<Byte>, o: nat, w: seq<Byte>)
    requires At(d, o, w) && |w| == 4
    ensures U32(d, o) == Unpack(w)
  {
    UnpackFour(w);
    ByteAt(d, o, w, 0);
    ByteAt(d, o, w, 1);
    ByteAt(d, o, w, 2);
    ByteAt(d, o, w, 3);
  }

  lemma PackedAt(d: seq<Byte>, o: nat, v: nat)
    requires At(d, o, Pack(v, DWORD)) && v < 0x1_0000_0000
    ensures U32(d, o) == v
  {
    UnpackPack(v, DWORD);
    Powers();
    DwordAt(d, o, Pack(v, DWORD));
  }

  lemma PartsAt(x: Image)
    requires Valid(x)
    ensures var d, l := Layout(x), 64 + |x.gap|;
            && At(d, 0, DosHeader(x)) && At(d, l, FileHeader(x)) && At(d, l + 24, x.optional)
            && At(d, l + 24 + |x.optional|, Table(x.sections))
            && |d| == l + 24 + |x.optional| + 40 * |x.sections| + |x.body|
  {
    hide At;
    var h, g, f, o, t := DosHeader(x), x.gap, FileHeader(x), x.optional, Table(x.sections);
    Tail([], h);
    assert [] + h == h;
    Grow(h, 0, h, g);
    Tail(h + g, f);
    Grow(h + g, 0, h, f);
    Tail(h + g + f, o);
    Grow(h + g + f, 0, h, o);
    Grow(h + g + f, |h + g|, f, o);
    Tail(h + g + f + o, t);
    Grow(h + g + f + o, 0, h, t);
    Grow(h + g + f + o, |h + g|, f, t);
    Grow(h + g + f + o, |h + g + f|, o, t);
    var all := h + g + f + o + t;
    Grow(all, 0, h, x.body);
    Grow(all, |h + g|, f, x.body);
    Grow(all, |h + g + f|, o, x.body);
    Grow(all, |h + g + f + o|, t, x.body);
  }

  lemma HeaderFields(x: Image)
    requires Valid(x)
    ensures At(DosHeader(x), 60, Pack(64 + |x.gap|, DWORD))
    ensures At(FileHeader(x), 6, Pack(|x.sections|, 2)) && At(FileHeader(x), 20, Pack(|x.optional|, 2))
  {
    hide At;
    Tail([0x4D, 0x5A] + x.dos, Pack(64 + |x.gap|, DWORD));
    var a, n, m := [0x50, 0x45, 0, 0] + x.machine, Pack(|x.sections|, 2), Pack(|x.optional|, 2);
    Tail(a, n);
    Grow(a + n, 6, n, x.stamp);
    Tail(a + n + x.stamp, m);
    Grow(a + n + x.stamp, 6, n, m);
    Grow(a + n + x.stamp + m, 6, n, x.flags);
    Grow(a + n + x.stamp + m, 20, m, x.flags);
  }

  lemma {:induction false} SectionInTable(sections: seq<Section>, i: nat)
    requires (forall j :: 0 <= j < |sections| ==> ValidSection(sections[j])) && i < |sections|
    ensures At(Table(sections), 40 * i, Encoded(sections[i]))
  {
    hide At, Encoded, ValidSection;
    var n := |sections| - 1;
    var front, last := Table(sections[..n]), Encoded(sections[n]);
    if i < n {
      SectionInTable(sections[..n], i);
      Grow(front, 40 * i, Encoded(sections[i]), last);
    } else {
      Tail(front, last);
    }
  }

  lemma SectionFields(s: Section)
    requires ValidSection(s)
    ensures At(Encoded(s), 0, s.name + Zeros(8 - |s.name|))
    ensures At(Encoded(s), 16, Pack(s.rawSize, DWORD)) && At(Encoded(s), 20, Pack(s.pointer, DWORD))
  {
    hide At;
    var name := s.name + Zeros(8 - |s.name|);
    var a, b := Pack(s.rawSize, DWORD), Pack(s.pointer, DWORD);
    Tail([], name);
    assert [] + name == name;
    Grow(name, 0, name, s.space);
    Tail(name + s.space, a);
    Grow(name + s.space, 0, name, a);
    Tail(name + s.space + a, b);
    Grow(name + s.space + a, 0, name, b);
    Grow(name + s.space + a, 16, a, b);
    var all := name + s.space + a + b;
    Grow(all, 0, name, s.rest);
    Grow(all, 16, a, s.rest);
    Grow(all, 20, b, s.rest);
  }

  // ---------- What is read back ----------

  lemma HeadersRead(x: Image)
    requires Valid(x)
    ensures var d, l := Layout(x), 64 + |x.gap|;
            && HasOptional(d) && Lfanew(d) == l && SectionCount(d) == |x.sections| && OptionalSize(d) == |x.optional|
  {
    var d, l := Layout(x), 64 + |x.gap|;
    PartsAt(x);
    HeaderFields(x);
    Inside(d, 0, DosHeader(x), 60, Pack(l, DWORD));
    PackedAt(d, 60, l);
    ByteAt(d, 0, DosHeader(x), 0);
    ByteAt(d, 0, DosHeader(x), 1);
    SignatureRead(d, l, x);
    Inside(d, l, FileHeader(x), 6, Pack(|x.sections|, 2));
    Inside(d, l, FileHeader(x), 20, Pack(|x.optional|, 2));
    WordAt(d, l + 6, |x.sections|);
    WordAt(d, l + 20, |x.optional|);
  }

  lemma SignatureRead(d: seq<Byte>, l: nat, x: Image)
    requires Valid(x) && At(d, l, FileHeader(x))
    ensures Signed(d, l)
  {
    var f := FileHeader(x);
    assert f[0] == 0x50 && f[1] == 0x45 && f[2] == 0 && f[3] == 0;
    ByteAt(d, l, f, 0);
    ByteAt(d, l, f, 1);
    ByteAt(d, l, f, 2);
    ByteAt(d, l, f, 3);
  }

  /** The fields of the optional header. */
  lemma OptionalRead(x: Image)
    requires Valid(x)
    ensures Is64(Layout(x)) <==> x.optional[0] == 0x0B && x.optional[1] == 0x02
    ensures EntryPoint(Layout(x)) == if |x.optional| >= 20 then Unpack(x.optional[16..20]) else 0
  {
    hide Layout, Table, At, U32, ValidSection;
    var d, o := Layout(x), 64 + |x.gap| + 24;
    HeadersRead(x);
    PartsAt(x);
    ByteAt(d, o, x.optional, 0);
    ByteAt(d, o, x.optional, 1);
    if |x.optional| >= 20 {
      Part(x.optional, 16, 20);
      Inside(d, o, x.optional, 16, x.optional[16..20]);
      DwordAt(d, o + 16, x.optional[16..20]);
    }
  }

  /** Every section declared is scanned, and its header is where the table says. */
  lemma SectionStands(x: Image, i: nat)
    requires Valid(x) && i < |x.sections|
    ensures var d := Layout(x); Scanned(d, i) && At(d, SectionAt(d, i), Encoded(x.sections[i]))
  {
    hide Layout, Encoded, Table, At, U16, U32, ValidSection;
    var d, s := Layout(x), x.sections[i];
    HeadersRead(x);
    PartsAt(x);
    SectionInTable(x.sections, i);
    Inside(d, 64 + |x.gap| + 24 + |x.optional|, Table(x.sections), 40 * i, Encoded(s));
  }

  lemma FieldsRead(d: seq<Byte>, o: nat, s: Section)
    requires ValidSection(s) && At(d, o, Encoded(s))
    ensures o + 40 <= |d|
    ensures U32(d, o + 16) == s.rawSize && U32(d, o + 20) == s.pointer && NameAt(d, o) == s.name
  {
    SectionFields(s);
    Inside(d, o, Encoded(s), 16, Pack(s.rawSize, DWORD));
    Inside(d, o, Encoded(s), 20, Pack(s.pointer, DWORD));
    Inside(d, o, Encoded(s), 0, s.name + Zeros(8 - |s.name|));
    PackedAt(d, o + 16, s.rawSize);
    PackedAt(d, o + 20, s.pointer);
    TrimmedName(s.name, 8 - |s.name|);
  }

  /** Its fields are read as they were put in. */
  lemma SectionRead(x: Image, i: nat)
    requires Valid(x) && i < |x.sections|
    ensures var d, s := Layout(x), x.sections[i];
            && Scanned(d, i) && SectionAt(d, i) + 40 <= |d|
            && RawSize(d, i) == s.rawSize && U32(d, SectionAt(d, i) + 20) == s.pointer
            && NameAt(d, SectionAt(d, i)) == s.name
  {
    hide Layout, Encoded, At, U32, Trimmed;
    SectionStands(x, i);
    FieldsRead(Layout(x), SectionAt(Layout(x), i), x.sections[i]);
  }

  lemma {:induction false} TrimmedName(name: seq<Byte>, n: nat)
    requires forall i :: 0 <= i < |name| ==> name[i] != 0
    ensures Trimmed(name + Zeros(n)) == name
  {
    var padded := name + Zeros(n);
    if name == [] {
      assert n > 0 ==> padded[0] == 0;
    } else {
      TrimmedName(name[1..], n);
      assert padded[1..] == name[1..] + Zeros(n);
    }
  }

  lemma AllScanned(x: Image)
    requires Valid(x)
    ensures Scans(Layout(x)) == |x.sections|
  {
    var d := Layout(x);
    HeadersRead(x);
    assert !Scanned(d, |x.sections|);
    if x.sections != [] {
      SectionRead(x, |x.sections| - 1);
      assert Scanned(d, |x.sections| - 1);
    }
  }

  // ---------- Packers' names ----------

  /** A lower-case word in any spelling. */
  predicate SpelledAs(name: seq<Byte>, word: string) {
    |name| == |word| &&
    forall k :: 0 <= k < |name| ==>
      name[k] == word[k] as int || ('a' <= word[k] <= 'z' && name[k] == word[k] as int - 32)
  }

  const WORDS: seq<string> := [
    "upx0", "upx1", "upx2", ".aspack", ".adata", ".vmp",
    "themida", "pec2", ".petite", "fsg!", ".neolite", ".enigma"]

  /** The lower-case form of a packer's name. */
  predicate LowerOf(packer: string, word: string) {
    |packer| == |word| && forall k :: 0 <= k < |word| ==> word[k] as int == LowerAscii(packer[k] as int)
  }

  lemma SpellingIff(name: seq<Byte>, packer: string, word: string)
    requires LowerOf(packer, word)
    ensures SameName(name, packer) <==> SpelledAs(name, word)
  {
    if |name| == |word| {
      forall k | 0 <= k < |name|
        ensures LowerAscii(name[k]) == LowerAscii(packer[k] as int) <==>
                name[k] == word[k] as int || ('a' <= word[k] <= 'z' && name[k] == word[k] as int - 32)
      {
      }
    }
  }

  lemma WordsAreLower(p: nat)
    requires p < 12
    ensures |PACKERS| == |WORDS| == 12 && LowerOf(PACKERS[p], WORDS[p])
  {
  }

  /** A section has a packer's name exactly when it is one of these twelve, in any spelling. */
  lemma PackerNames(name: seq<Byte>)
    ensures KnownPacker(name) <==>
              exists w :: w in ["upx0", "upx1", "upx2", ".aspack", ".adata", ".vmp",
                                "themida", "pec2", ".petite", "fsg!", ".neolite", ".enigma"] && SpelledAs(name, w)
  {
    forall p | 0 <= p < 12 ensures |PACKERS| == 12 && (SameName(name, PACKERS[p]) <==> SpelledAs(name, WORDS[p])) {
      WordsAreLower(p);
      SpellingIff(name, PACKERS[p], WORDS[p]);
    }
    if w :| w in WORDS && SpelledAs(name, w) {
      var p :| 0 <= p < |WORDS| && WORDS[p] == w;
      assert SameName(name, PACKERS[p]);
    }
  }

  // ---------- The round trip ----------

  /** The sections among the first `k` with a packer's name. */
  function PackersAmong(sections: seq<Section>, k: nat): set<nat>
    requires k <= |sections|
  {
    set i: nat | i < k && KnownPacker(sections[i].name)
  }

  lemma {:induction false} SuspiciousAre(x: Image, k: nat)
    requires Valid(x) && k <= |x.sections| && forall i :: 0 <= i < k ==> Scanned(Layout(x), i)
    ensures SuspiciousCount(Layout(x), k) == |PackersAmong(x.sections, k)|
  {
    hide Layout, KnownPacker;
    if k == 0 {
      assert PackersAmong(x.sections, k) == {};
    } else {
      SuspiciousAre(x, k - 1);
      SectionRead(x, k - 1);
      PackersNext(x.sections, k - 1);
    }
  }

  lemma PackersNext(sections: seq<Section>, k: nat)
    requires k < |sections|
    ensures |PackersAmong(sections, k + 1)| == |PackersAmong(sections, k)| + if KnownPacker(sections[k].name) then 1 else 0
  {
    var more: set<nat> := if KnownPacker(sections[k].name) then {k} else {};
    assert PackersAmong(sections, k + 1) == PackersAmong(sections, k) + more;
  }

  /** The raw size is the smallest of the first `k` sections. */
  predicate Smallest(sections: seq<Section>, k: nat, size: nat)
    requires k <= |sections|
  {
    (exists i :: 0 <= i < k && sections[i].rawSize == size) && forall i :: 0 <= i < k ==> size <= sections[i].rawSize
  }

  lemma {:induction false} SmallestRaw(x: Image, k: nat)
    requires Valid(x) && k <= |x.sections| && forall i :: 0 <= i < k ==> Scanned(Layout(x), i)
    ensures match MinRaw(Layout(x), k)
            case None => k == 0
            case Some(m) => Smallest(x.sections, k, m)
  {
    hide Layout;
    if k > 0 {
      SmallestRaw(x, k - 1);
      SectionRead(x, k - 1);
      SmallerNext(x.sections, k - 1);
    }
  }

  lemma SmallerNext(sections: seq<Section>, k: nat)
    requires k < |sections|
    ensures k == 0 ==> Smallest(sections, 1, sections[0].rawSize)
    ensures forall m :: Smallest(sections, k, m) ==> Smallest(sections, k + 1, if sections[k].rawSize < m then sections[k].rawSize else m)
  {
    forall m | Smallest(sections, k, m)
      ensures Smallest(sections, k + 1, if sections[k].rawSize < m then sections[k].rawSize else m)
    {
      if sections[k].rawSize >= m {
        var i :| 0 <= i < k && sections[i].rawSize == m;
        assert sections[i].rawSize == m;
      }
    }
  }

  /** What is reported of a file laid out like this is what was put into it. */
  lemma RoundTrip(x: Image, t: Triage)
    requires Valid(x) && Reports(Layout(x), t)
    ensures t.isPe && t.sections == |x.sections|
    ensures t.is64 <==> x.optional[0] == 0x0B && x.optional[1] == 0x02
    ensures t.entryPoint == if |x.optional| >= 20 then Unpack(x.optional[16..20]) else 0
    ensures t.suspicious == |set i: nat | i < |x.sections| && KnownPacker(x.sections[i].name)|
    ensures if x.sections == [] then t.minRaw == 0
            else (exists i :: 0 <= i < |x.sections| && x.sections[i].rawSize == t.minRaw)
                 && forall i :: 0 <= i < |x.sections| ==> t.minRaw <= x.sections[i].rawSize
  {
    hide Layout, KnownPacker;
    HeadersRead(x);
    OptionalRead(x);
    AllScanned(x);
    SuspiciousAre(x, |x.sections|);
    SmallestRaw(x, |x.sections|);
    assert PackersAmong(x.sections, |x.sections|) == set i: nat | i < |x.sections| && KnownPacker(x.sections[i].name);
  }

  /** The entropy of a section is that of its bytes in the file, cut off at the end; one without any has none. */
  lemma EntropyRead(x: Image, i: nat, entropyOf: (nat, nat) -> real)
    requires Valid(x) && i < |x.sections|
    ensures var d, s := Layout(x), x.sections[i];
            SectionEntropy(d, i, entropyOf) ==
            if s.rawSize == 0 || s.pointer >= |d| then None
            else Some(entropyOf(s.pointer, if s.pointer + s.rawSize < |d| then s.pointer + s.rawSize else |d|))
  {
    SectionRead(x, i);
  }

  // ---------- What the figures are worth ----------

  /** How many sections have an entropy. */
  function Measured(es: seq<Option<real>>): set<nat> {
    set i: nat | i < |es| && es[i].Some?
  }

  lemma {:induction false} CountIs(es: seq<Option<real>>)
    ensures CountOf(es) == |Measured(es)|
  {
    if es == [] {
      assert Measured(es) == {};
    } else {
      var n := |es| - 1;
      CountIs(es[..n]);
      var more: set<nat> := if es[n].Some? then {n} else {};
      assert Measured(es) == Measured(es[..n]) + more;
    }
  }

  lemma {:induction false} TotalBetween(es: seq<Option<real>>, low: real, high: real)
    requires forall i :: 0 <= i < |es| && es[i].Some? ==> low <= es[i].value <= high
    ensures low * CountOf(es) as real <= TotalOf(es) <= high * CountOf(es) as real
  {
    if es != [] {
      var n := |es| - 1;
      TotalBetween(es[..n], low, high);
      if es[n].Some? {
        OneMoreTime(low, CountOf(es[..n]));
        OneMoreTime(high, CountOf(es[..n]));
      }
    }
  }

  lemma OneMoreTime(v: real, n: nat)
    ensures v * (n + 1) as real == v * n as real + v
  {
  }

  /** The average lies between the smallest and the largest entropy, and of equal ones it is that one. */
  lemma AverageBetween(es: seq<Option<real>>, low: real, high: real)
    requires CountOf(es) > 0 && forall i :: 0 <= i < |es| && es[i].Some? ==> low <= es[i].value <= high
    ensures low <= TotalOf(es) / CountOf(es) as real <= high
  {
    TotalBetween(es, low, high);
    Divided(TotalOf(es), CountOf(es) as real, low, high);
  }

  lemma Divided(t: real, n: real, low: real, high: real)
    requires n > 0.0 && low * n <= t <= high * n
    ensures low <= t / n <= high
  {
    var q := t / n;
    assert q * n == t;
    assert (q - low) * n >= 0.0 && (high - q) * n >= 0.0;
  }
}
