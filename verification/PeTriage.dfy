/**
 * PE header triage: the declarative reading of the headers, the field-by-field parser proved
 * against it, its stability under truncation, and the second implementation it must agree with.
 */
module PeTriage {
  import opened Options
  import opened Words

  function U16(d: seq<Byte>, o: nat): nat
    requires o + 2 <= |d|
  {
    d[o] as int + 0x100 * (d[o + 1] as int)
  }

  function U32(d: seq<Byte>, o: nat): nat
    requires o + 4 <= |d|
  {
    d[o] as int + 0x100 * (d[o + 1] as int) + 0x1_0000 * (d[o + 2] as int) + 0x100_0000 * (d[o + 3] as int)
  }

  // ---------- Reading the headers ----------

  function Lfanew(d: seq<Byte>): nat
    requires 64 <= |d|
  {
    U32(d, 0x3C)
  }

  predicate Signed(d: seq<Byte>, o: nat) {
    o + 4 <= |d| && d[o] == 0x50 && d[o + 1] == 0x45 && d[o + 2] == 0 && d[o + 3] == 0
  }

  predicate IsPe(d: seq<Byte>) {
    64 <= |d| && d[0] == 0x4D && d[1] == 0x5A && Signed(d, Lfanew(d))
  }

  /** The COFF file header fits. */
  predicate HasCoff(d: seq<Byte>) {
    IsPe(d) && Lfanew(d) + 24 <= |d|
  }

  function SectionCount(d: seq<Byte>): nat
    requires HasCoff(d)
  {
    U16(d, Lfanew(d) + 6)
  }

  function OptionalSize(d: seq<Byte>): nat
    requires HasCoff(d)
  {
    U16(d, Lfanew(d) + 20)
  }

  /** The optional header fits and is long enough to hold its magic. */
  predicate HasOptional(d: seq<Byte>) {
    HasCoff(d) && 2 <= OptionalSize(d) && Lfanew(d) + 24 + OptionalSize(d) <= |d|
  }

  predicate Is64(d: seq<Byte>) {
    HasOptional(d) && U16(d, Lfanew(d) + 24) == 0x20B
  }

  function EntryPoint(d: seq<Byte>): nat {
    if HasOptional(d) && 20 <= OptionalSize(d) then U32(d, Lfanew(d) + 40) else 0
  }

  /** Where section header `i` starts. */
  function SectionAt(d: seq<Byte>, i: nat): nat
    requires HasCoff(d)
  {
    Lfanew(d) + 24 + OptionalSize(d) + 40 * i
  }

  /** The sections whose headers are looked at: declared, and inside the buffer. */
  predicate Scanned(d: seq<Byte>, i: nat) {
    HasOptional(d) && i < SectionCount(d) && SectionAt(d, i) + 40 <= |d|
  }

  const PACKERS: seq<string> := [
    "UPX0", "UPX1", "UPX2", ".aspack", ".adata", ".vmp",
    "Themida", "PEC2", ".petite", "FSG!", ".neolite", ".enigma"]

  function LowerAscii(b: int): int {
    if 'A' as int <= b <= 'Z' as int then b + 32 else b
  }

  /** Equal but for the case of ASCII letters. */
  predicate SameName(name: seq<Byte>, packer: string) {
    |name| == |packer| && forall k :: 0 <= k < |name| ==> LowerAscii(name[k]) == LowerAscii(packer[k] as int)
  }

  /** Up to the first NUL. */
  function Trimmed(name: seq<Byte>): seq<Byte> {
    if name == [] || name[0] == 0 then [] else [name[0]] + Trimmed(name[1..])
  }

  /** The name in the section header at `o`. */
  function NameAt(d: seq<Byte>, o: nat): seq<Byte>
    requires o + 8 <= |d|
  {
    Trimmed(d[o..o + 8])
  }

  predicate KnownPacker(name: seq<Byte>) {
    exists p :: 0 <= p < |PACKERS| && SameName(name, PACKERS[p])
  }

  predicate Suspicious(d: seq<Byte>, i: nat)
    requires Scanned(d, i)
  {
    KnownPacker(NameAt(d, SectionAt(d, i)))
  }

  function RawSize(d: seq<Byte>, i: nat): nat
    requires Scanned(d, i)
  {
    U32(d, SectionAt(d, i) + 16)
  }

  /** Suspicious names among the first `k` section headers. */
  function SuspiciousCount(d: seq<Byte>, k: nat): nat
    requires forall i :: 0 <= i < k ==> Scanned(d, i)
  {
    if k == 0 then 0 else SuspiciousCount(d, k - 1) + if Suspicious(d, k - 1) then 1 else 0
  }

  /** The smallest raw size among them, if there is any. */
  function MinRaw(d: seq<Byte>, k: nat): Option<nat>
    requires forall i :: 0 <= i < k ==> Scanned(d, i)
  {
    if k == 0 then None
    else
      var size := RawSize(d, k - 1);
      match MinRaw(d, k - 1)
      case None => Some(size)
      case Some(m) => Some(if size < m then size else m)
  }

  /** How many section headers the scan gets to: the declared count, or as many as the buffer holds. */
  function Scans(d: seq<Byte>): (k: nat)
    ensures forall i :: 0 <= i ==> (Scanned(d, i) <==> i < k)
  {
    if !HasOptional(d) then 0
    else
      var room := (|d| - SectionAt(d, 0)) / 40;
      if room < SectionCount(d) then room else SectionCount(d)
  }

  // ---------- The parser ----------

  datatype Triage = Triage(isPe: bool, is64: bool, sections: nat, entryPoint: nat, suspicious: nat, minRaw: nat)

  /**
   * The entropy of what a section's header points at, cut off at the end of the buffer, if any
   * of it is in there. `entropyOf(a, b)` stands for the entropy of the buffer's bytes from `a` to `b`.
   */
  function SectionEntropy(d: seq<Byte>, i: nat, entropyOf: (nat, nat) -> real): Option<real> {
    if !Scanned(d, i) then None else ClippedEntropy(|d|, U32(d, SectionAt(d, i) + 20), RawSize(d, i), entropyOf)
  }

  function ClippedEntropy(len: nat, ptr: nat, size: nat, entropyOf: (nat, nat) -> real): Option<real> {
    if size == 0 || len <= ptr then None else Some(entropyOf(ptr, if ptr + size < len then ptr + size else len))
  }

  /** `max` is the largest entropy in `es`, or zero if none is above it. */
  ghost predicate Peak(es: seq<Option<real>>, max: real) {
    && max >= 0.0
    && (forall i :: 0 <= i < |es| && es[i].Some? ==> es[i].value <= max)
    && (max == 0.0 || exists i :: 0 <= i < |es| && es[i] == Some(max))
  }

  /** The entropies of the first `k` sections. */
  ghost function Entropies(d: seq<Byte>, k: nat, entropyOf: (nat, nat) -> real): seq<Option<real>> {
    if k == 0 then [] else Entropies(d, k - 1, entropyOf) + [SectionEntropy(d, k - 1, entropyOf)]
  }

  lemma {:induction false} EntropiesAt(d: seq<Byte>, k: nat, entropyOf: (nat, nat) -> real)
    ensures |Entropies(d, k, entropyOf)| == k
    ensures forall i :: 0 <= i < k ==> Entropies(d, k, entropyOf)[i] == SectionEntropy(d, i, entropyOf)
  {
    if k > 0 {
      EntropiesAt(d, k - 1, entropyOf);
    }
  }

  /** How many entropies there are, and their sum. */
  function CountOf(es: seq<Option<real>>): nat {
    if es == [] then 0 else CountOf(es[..|es| - 1]) + if es[|es| - 1].Some? then 1 else 0
  }

  function TotalOf(es: seq<Option<real>>): real {
    if es == [] then 0.0
    else TotalOf(es[..|es| - 1]) + match es[|es| - 1] case None => 0.0 case Some(e) => e
  }

  /** Statistics of a list of entropies. */
  ghost predicate Summarizes(es: seq<Option<real>>, entropy: Entropy) {
    Peak(es, entropy.max) && entropy.total == TotalOf(es) && entropy.counted == CountOf(es)
  }

  /** Entropy statistics over the sections with data; the numbers themselves are not modelled. */
  datatype Entropy = Entropy(max: real, total: real, counted: nat)

  /** What the parser should report for a buffer. */
  ghost predicate Reports(d: seq<Byte>, t: Triage) {
    && t.isPe == IsPe(d)
    && t.is64 == Is64(d)
    && t.sections == (if HasCoff(d) then SectionCount(d) else 0)
    && t.entryPoint == EntryPoint(d)
    && t.suspicious == SuspiciousCount(d, Scans(d))
    && t.minRaw == (match MinRaw(d, Scans(d)) case None => 0 case Some(m) => m)
  }

  lemma {:induction false} MinRawAt(d: seq<Byte>, k: nat, i: nat)
    requires (forall j :: 0 <= j < k ==> Scanned(d, j)) && i < k
    ensures MinRaw(d, k).Some? && MinRaw(d, k).value <= RawSize(d, i)
  {
    if i < k - 1 {
      MinRawAt(d, k - 1, i);
    }
  }

  lemma NothingScanned(d: seq<Byte>, entropyOf: (nat, nat) -> real)
    ensures SuspiciousCount(d, 0) == 0 && MinRaw(d, 0) == None
    ensures Summarizes(Entropies(d, 0, entropyOf), Entropy(0.0, 0.0, 0))
  {
  }

  method ParsePeFast(data: seq<Byte>, entropyOf: (nat, nat) -> real)
    returns (res: Triage, entropy: Entropy, average: real)
    ensures Reports(data, res)
    ensures Summarizes(Entropies(data, Scans(data), entropyOf), entropy)
    ensures average == if entropy.counted > 0 then entropy.total / entropy.counted as real else 0.0
  {
    NothingScanned(data, entropyOf);
    hide Summarizes, Entropies, SuspiciousCount, MinRaw;
    res := Triage(false, false, 0, 0, 0, 0);
    entropy, average := Entropy(0.0, 0.0, 0), 0.0;
    if |data| < 64 {
      return;
    }
    if data[0] != 0x4D || data[1] != 0x5A {
      return;
    }
    var eLfanew := U32(data, 0x3C);
    if eLfanew + 4 > |data| {
      return;
    }
    if !(data[eLfanew] == 0x50 && data[eLfanew + 1] == 0x45 && data[eLfanew + 2] == 0 && data[eLfanew + 3] == 0) {
      return;
    }
    res := res.(isPe := true);
    var fileHeader := eLfanew + 4;
    if fileHeader + 20 > |data| {
      return;
    }
    var numSections := U16(data, fileHeader + 2);
    var sizeOfOpt := U16(data, fileHeader + 16);
    res := res.(sections := numSections);
    var optHeader := fileHeader + 20;
    if optHeader + sizeOfOpt > |data| || sizeOfOpt < 2 {
      return;
    }
    res := res.(is64 := U16(data, optHeader) == 0x20B);
    if sizeOfOpt >= 20 {
      res := res.(entryPoint := U32(data, optHeader + 16));
    }
    var suspicious, minRaw;
    suspicious, minRaw, entropy := ScanSections(data, numSections, optHeader + sizeOfOpt, entropyOf);
    res := res.(suspicious := suspicious);
    average := if entropy.counted > 0 then entropy.total / entropy.counted as real else 0.0;
    res := res.(minRaw := if minRaw == 0xFFFF_FFFF_FFFF_FFFF then 0 else minRaw);
  }

  /** What the loop over the section headers holds after `k` of them; the minimum starts at the largest 64-bit value. */
  ghost predicate Scan(d: seq<Byte>, k: nat, entropyOf: (nat, nat) -> real, suspicious: nat, minRaw: nat, entropy: Entropy) {
    && (forall i :: 0 <= i < k ==> Scanned(d, i))
    && suspicious == SuspiciousCount(d, k)
    && (match MinRaw(d, k)
        case None => minRaw == 0xFFFF_FFFF_FFFF_FFFF
        case Some(m) => minRaw == m && minRaw < 0x1_0000_0000)
    && Summarizes(Entropies(d, k, entropyOf), entropy)
  }

  method ScanSections(data: seq<Byte>, numSections: nat, table: nat, entropyOf: (nat, nat) -> real)
    returns (suspicious: nat, minRaw: nat, entropy: Entropy)
    requires HasOptional(data) && numSections == SectionCount(data) && table == SectionAt(data, 0)
    ensures Scan(data, Scans(data), entropyOf, suspicious, minRaw, entropy)
  {
    suspicious, minRaw, entropy := 0, 0xFFFF_FFFF_FFFF_FFFF, Entropy(0.0, 0.0, 0);
    var i := 0;
    while i < numSections
      invariant 0 <= i <= numSections
      invariant Scan(data, i, entropyOf, suspicious, minRaw, entropy)
    {
      var header := table + i * 40;
      if header + 40 > |data| {
        break;
      }
      suspicious, minRaw, entropy := ScanSection(data, i, header, entropyOf, suspicious, minRaw, entropy);
      i := i + 1;
    }
    assert i == Scans(data);
  }

  /** The body of that loop. */
  method ScanSection(data: seq<Byte>, ghost i: nat, header: nat, entropyOf: (nat, nat) -> real,
                     suspicious0: nat, minRaw0: nat, entropy0: Entropy)
    returns (suspicious: nat, minRaw: nat, entropy: Entropy)
    requires Scanned(data, i) && header == SectionAt(data, i)
    requires Scan(data, i, entropyOf, suspicious0, minRaw0, entropy0)
    ensures Scan(data, i + 1, entropyOf, suspicious, minRaw, entropy)
  {
    var known := IsKnownPacker(NameAt(data, header));
    suspicious := if known then suspicious0 + 1 else suspicious0;
    var size := U32(data, header + 16);
    var ptr := U32(data, header + 20);
    minRaw := if size < minRaw0 then size else minRaw0;
    entropy := Tally(data, size, ptr, entropyOf, entropy0);
    ScanStep(data, i, entropyOf, suspicious0, minRaw0, entropy0, entropy);
  }

  lemma ScanStep(d: seq<Byte>, i: nat, entropyOf: (nat, nat) -> real, suspicious: nat, minRaw: nat, entropy: Entropy, entropy': Entropy)
    requires Scan(d, i, entropyOf, suspicious, minRaw, entropy) && Scanned(d, i)
    requires entropy' == Extended(entropy, SectionEntropy(d, i, entropyOf))
    ensures Scan(d, i + 1, entropyOf, suspicious + if Suspicious(d, i) then 1 else 0,
                 if RawSize(d, i) < minRaw then RawSize(d, i) else minRaw, entropy')
  {
    SummaryStep(Entropies(d, i, entropyOf), entropy, SectionEntropy(d, i, entropyOf));
  }

  /** The statistics with one more entropy, if there is one. */
  function Extended(entropy: Entropy, e: Option<real>): Entropy {
    match e
    case None => entropy
    case Some(v) => Entropy(if v > entropy.max then v else entropy.max, entropy.total + v, entropy.counted + 1)
  }

  lemma PeakStep(es: seq<Option<real>>, max: real, e: Option<real>)
    requires Peak(es, max)
    ensures Peak(es + [e], if e.Some? && e.value > max then e.value else max)
  {
    var all := es + [e];
    if e.Some? && e.value > max {
      assert all[|es|] == e;
    } else if max != 0.0 {
      var i :| 0 <= i < |es| && es[i] == Some(max);
      assert all[i] == Some(max);
    }
  }

  lemma SummaryStep(es: seq<Option<real>>, entropy: Entropy, e: Option<real>)
    requires Summarizes(es, entropy)
    ensures Summarizes(es + [e], Extended(entropy, e))
  {
    PeakStep(es, entropy.max, e);
    assert (es + [e])[..|es|] == es;
  }

  /** The entropy part of the loop's body. */
  method Tally(data: seq<Byte>, size: nat, ptr: nat, entropyOf: (nat, nat) -> real, entropy: Entropy)
    returns (r: Entropy)
    ensures r == Extended(entropy, ClippedEntropy(|data|, ptr, size, entropyOf))
  {
    r := entropy;
    if size > 0 && ptr < |data| {
      var end := if ptr + size < |data| then ptr + size else |data|;
      if end > ptr {
        var e := entropyOf(ptr, end);
        r := Entropy(if e > entropy.max then e else entropy.max, entropy.total + e, entropy.counted + 1);
      }
    }
  }

  /** The inner loop over the known packer names. */
  method IsKnownPacker(name: seq<Byte>) returns (known: bool)
    ensures known == KnownPacker(name)
  {
    var p := 0;
    while p < |PACKERS|
      invariant 0 <= p <= |PACKERS|
      invariant forall q :: 0 <= q < p ==> !SameName(name, PACKERS[q])
    {
      if SameName(name, PACKERS[p]) {
        return true;
      }
      p := p + 1;
    }
    return false;
  }

  // ---------- Truncation ----------

  /** How much of a file must be kept for its headers to be complete. */
  function HeadersEnd(d: seq<Byte>): nat {
    if !IsPe(d) then 64
    else if !HasCoff(d) then Lfanew(d) + 4
    else SectionAt(d, SectionCount(d))
  }

  /** A prefix is recognized exactly when the file is and the signature lies inside the prefix. */
  lemma IsPeOfPrefix(d: seq<Byte>, n: nat)
    requires 64 <= n <= |d|
    ensures IsPe(d[..n]) <==> IsPe(d) && Lfanew(d) + 4 <= n
  {
    assert Lfanew(d[..n]) == Lfanew(d);
  }

  lemma PrefixHeaders(d: seq<Byte>, n: nat)
    requires 64 <= n <= |d| && HeadersEnd(d) <= n && HasCoff(d)
    ensures var p := d[..n];
            && HasCoff(p) && SectionCount(p) == SectionCount(d) && OptionalSize(p) == OptionalSize(d)
            && HasOptional(p) == HasOptional(d) && Is64(p) == Is64(d) && EntryPoint(p) == EntryPoint(d)
    ensures forall i {:trigger Scanned(d, i)} {:trigger Scanned(d[..n], i)} :: 0 <= i ==> Scanned(d[..n], i) == Scanned(d, i)
  {
    var p := d[..n];
    assert Lfanew(p) == Lfanew(d);
    assert SectionCount(p) == SectionCount(d) && OptionalSize(p) == OptionalSize(d);
    forall i: nat ensures Scanned(p, i) == Scanned(d, i) {
      if i < SectionCount(d) {
        assert SectionAt(d, i) + 40 <= HeadersEnd(d);
      }
    }
  }

  lemma PrefixSection(d: seq<Byte>, n: nat, i: nat)
    requires 64 <= n <= |d| && Scanned(d, i) && Scanned(d[..n], i) && SectionAt(d[..n], i) == SectionAt(d, i)
    ensures Suspicious(d[..n], i) == Suspicious(d, i) && RawSize(d[..n], i) == RawSize(d, i)
  {
    var o := SectionAt(d, i);
    assert d[..n][o..o + 8] == d[o..o + 8];
  }

  lemma {:induction false} PrefixSections(d: seq<Byte>, n: nat, k: nat)
    requires 64 <= n <= |d| && HasCoff(d) && HasCoff(d[..n])
    requires forall i :: 0 <= i < k ==> Scanned(d, i) && Scanned(d[..n], i)
    requires SectionAt(d[..n], 0) == SectionAt(d, 0)
    ensures SuspiciousCount(d[..n], k) == SuspiciousCount(d, k) && MinRaw(d[..n], k) == MinRaw(d, k)
  {
    if k > 0 {
      PrefixSections(d, n, k - 1);
      PrefixSection(d, n, k - 1);
    }
  }

  /** Keeping at least the headers keeps every header-derived field, however the parser got there. */
  lemma StableUnderTruncation(d: seq<Byte>, n: nat, full: Triage, cut: Triage)
    requires 64 <= n <= |d| && HeadersEnd(d) <= n
    requires Reports(d, full) && Reports(d[..n], cut)
    ensures cut == full
  {
    IsPeOfPrefix(d, n);
    if HasCoff(d) {
      PrefixHeaders(d, n);
      SameScans(d, d[..n]);
      PrefixSections(d, n, Scans(d));
    }
  }

  lemma SameScans(d: seq<Byte>, e: seq<Byte>)
    requires forall i {:trigger Scanned(d, i)} {:trigger Scanned(e, i)} :: 0 <= i ==> Scanned(e, i) == Scanned(d, i)
    ensures Scans(d) == Scans(e)
  {
    assert Scanned(d, Scans(d)) == Scanned(e, Scans(d));
    assert Scanned(d, Scans(e)) == Scanned(e, Scans(e));
  }

  /** A section that looks packed: by its name, or by what its data looks like in the buffer. */
  ghost predicate Packed(d: seq<Byte>, i: nat, entropyOf: (nat, nat) -> real) {
    Scanned(d, i) && (Suspicious(d, i) || (SectionEntropy(d, i, entropyOf).Some? && SectionEntropy(d, i, entropyOf).value > 7.85))
  }

  lemma {:induction false} SuspiciousSome(d: seq<Byte>, k: nat)
    requires forall i :: 0 <= i < k ==> Scanned(d, i)
    ensures SuspiciousCount(d, k) > 0 <==> exists i :: 0 <= i < k && Suspicious(d, i)
  {
    if k > 0 {
      SuspiciousSome(d, k - 1);
      if Suspicious(d, k - 1) {
        assert SuspiciousCount(d, k) > 0;
      }
    }
  }

  /** The verdict on a header is the existence of a section that looks packed. */
  lemma PackedIff(d: seq<Byte>, entropyOf: (nat, nat) -> real, max: real)
    requires Peak(Entropies(d, Scans(d), entropyOf), max)
    ensures SuspiciousCount(d, Scans(d)) > 0 || max > 7.85 <==> exists i :: 0 <= i && Packed(d, i, entropyOf)
  {
    var k := Scans(d);
    SuspiciousSome(d, k);
    var es := Entropies(d, k, entropyOf);
    EntropiesAt(d, k, entropyOf);
    if i: nat :| Packed(d, i, entropyOf) {
      assert i < k;
    }
    if SuspiciousCount(d, k) > 0 {
      var i: nat :| i < k && Suspicious(d, i);
      assert Packed(d, i, entropyOf);
    }
    if max > 7.85 {
      var i: nat :| i < k && es[i] == Some(max);
      assert Packed(d, i, entropyOf);
    }
  }

  /** The scanner's look at a file: the first read of at most 4096 bytes. */
  method ScanHeader(file: seq<Byte>, n: nat, entropyOf: (nat, nat) -> real) returns (isPe: bool, packer: bool)
    requires n <= |file| && n <= 4096
    ensures isPe <==> 64 <= n && IsPe(file) && Lfanew(file) + 4 <= n
    ensures packer <==> isPe && exists i :: 0 <= i && Packed(file[..n], i, entropyOf)
  {
    isPe, packer := false, false;
    if |file| >= 64 && n >= 64 {
      var header := file[..n];
      IsPeOfPrefix(file, n);
      if header[0] == 0x4D && header[1] == 0x5A {
        var triage, entropy, _ := ParsePeFast(header, entropyOf);
        if triage.isPe {
          isPe := true;
          PackedIff(header, entropyOf, entropy.max);
          packer := triage.suspicious > 0 || entropy.max > 7.85;
        }
      }
    }
  }

  // ---------- The second implementation ----------

  /** Python slicing: bounds are cut to the length. */
  function PySlice(d: seq<Byte>, a: nat, b: nat): seq<Byte>
    requires a <= b
  {
    var lo := if a < |d| then a else |d|;
    var hi := if b < |d| then b else |d|;
    d[lo..hi]
  }

  /** A whole result: the header-derived fields and the two entropy figures. */
  datatype Result = Result(triage: Triage, maxEntropy: real, avgEntropy: real)

  /** A result without anything about sections but their number. */
  function Plain(is64: bool, sections: nat, entryPoint: nat): Result {
    Result(Triage(true, is64, sections, entryPoint, 0, 0), 0.0, 0.0)
  }

  /** The pure-Python branch; None when it is not a PE file. It does not look at sections. */
  function FastPeTriage(d: seq<Byte>): Option<Result> {
    if |d| < 64 || PySlice(d, 0, 2) != [0x4D, 0x5A] then None
    else
      var e := Unpack(PySlice(d, 0x3C, 0x40));
      if e + 4 > |d| || PySlice(d, e, e + 4) != [0x50, 0x45, 0, 0] then None
      else
        var fh := e + 4;
        var sections := Unpack(PySlice(d, fh + 2, fh + 4));
        var optSize := Unpack(PySlice(d, fh + 16, fh + 18));
        var opt := fh + 20;
        if optSize >= 20 && opt + optSize <= |d| then
          Some(Plain(Unpack(PySlice(d, opt, opt + 2)) == 0x20B, sections, Unpack(PySlice(d, opt + 16, opt + 20))))
        else Some(Plain(false, sections, 0))
  }

  lemma SliceWord(d: seq<Byte>, o: nat)
    ensures o + 2 <= |d| ==> Unpack(PySlice(d, o, o + 2)) == U16(d, o)
    ensures o + 4 <= |d| ==> Unpack(PySlice(d, o, o + 4)) == U32(d, o)
  {
    if o + 2 <= |d| {
      UnpackTwo(d[o..o + 2]);
    }
    if o + 4 <= |d| {
      UnpackFour(d[o..o + 4]);
    }
  }

  lemma UnpackTwo(w: seq<Byte>)
    requires |w| == 2
    ensures Unpack(w) == w[0] as int + 0x100 * (w[1] as int)
  {
    assert w[1..][1..] == [];
    assert Unpack(w[1..]) == w[1];
  }

  lemma UnpackFour(w: seq<Byte>)
    requires |w| == 4
    ensures Unpack(w) == w[0] as int + 0x100 * (w[1] as int) + 0x1_0000 * (w[2] as int) + 0x100_0000 * (w[3] as int)
  {
    UnpackTwo(w[1..][1..]);
    assert Unpack(w[1..]) == w[1] + 256 * Unpack(w[1..][1..]);
  }

  /** Both implementations recognize the same files. */
  lemma SameRecognition(d: seq<Byte>)
    ensures FastPeTriage(d).Some? <==> IsPe(d)
  {
    if 64 <= |d| {
      SliceWord(d, 0x3C);
      assert PySlice(d, 0, 2) == [d[0], d[1]];
      var e := Lfanew(d);
      if e + 4 <= |d| {
        assert PySlice(d, e, e + 4) == [d[e], d[e + 1], d[e + 2], d[e + 3]];
      }
    }
  }

  /** What the file header declares, as Python reads it when it is cut off. */
  function CutSections(d: seq<Byte>): nat
    requires IsPe(d)
  {
    Unpack(PySlice(d, Lfanew(d) + 6, Lfanew(d) + 8))
  }

  /** Both give the same word size, section count and entry point. */
  predicate Agree(d: seq<Byte>)
    requires IsPe(d)
  {
    match FastPeTriage(d)
    case None => false
    case Some(f) =>
      && f.triage.is64 == Is64(d) && f.triage.entryPoint == EntryPoint(d)
      && f.triage.sections == if HasCoff(d) then SectionCount(d) else 0
  }

  /** A PE32+ magic in an optional header of 2 to 19 bytes. */
  predicate ShortPlus(d: seq<Byte>)
    requires IsPe(d)
  {
    Is64(d) && OptionalSize(d) < 20
  }

  /** A file header cut off after a non-zero section count. */
  predicate CutOff(d: seq<Byte>)
    requires IsPe(d)
  {
    !HasCoff(d) && CutSections(d) != 0
  }

  /** On every file both recognize, they agree on these three fields exactly when it is of neither kind. */
  lemma FallbackAgreement(d: seq<Byte>)
    requires IsPe(d)
    ensures Agree(d) <==> !ShortPlus(d) && !CutOff(d)
  {
    SameRecognition(d);
    var e := Lfanew(d);
    SliceWord(d, 0x3C);
    SliceWord(d, e + 6);
    SliceWord(d, e + 20);
    SliceWord(d, e + 24);
    SliceWord(d, e + 40);
  }

  /** What the parser returns, as a whole. */
  ghost predicate Parsed(d: seq<Byte>, entropyOf: (nat, nat) -> real, r: Result, entropy: Entropy) {
    && Reports(d, r.triage)
    && Summarizes(Entropies(d, Scans(d), entropyOf), entropy) && r.maxEntropy == entropy.max
    && r.avgEntropy == if entropy.counted > 0 then entropy.total / entropy.counted as real else 0.0
  }

  /** The parser found nothing to say about sections. */
  predicate SectionsSilent(r: Result) {
    r.triage.suspicious == 0 && r.triage.minRaw == 0 && r.maxEntropy == 0.0 && r.avgEntropy == 0.0
  }

  /** The whole results agree exactly when the file is of neither kind and its sections are silent. */
  lemma WholeAgreement(d: seq<Byte>, entropyOf: (nat, nat) -> real, r: Result, entropy: Entropy)
    requires IsPe(d) && Parsed(d, entropyOf, r, entropy)
    ensures FastPeTriage(d) == Some(r) <==> !ShortPlus(d) && !CutOff(d) && SectionsSilent(r)
  {
    FallbackAgreement(d);
    SameRecognition(d);
    PlainResult(d);
  }

  lemma PlainResult(d: seq<Byte>)
    ensures FastPeTriage(d).Some? ==>
              var t := FastPeTriage(d).value.triage; FastPeTriage(d) == Some(Plain(t.is64, t.sections, t.entryPoint))
  {
  }

  /** What silence means in the file: the minimum raw size is zero when no section is scanned or one has none. */
  lemma {:induction false} MinRawZeroIff(d: seq<Byte>, k: nat)
    requires forall i :: 0 <= i < k ==> Scanned(d, i)
    ensures (match MinRaw(d, k) case None => 0 case Some(m) => m) == 0 <==> k == 0 || exists i :: 0 <= i < k && RawSize(d, i) == 0
    ensures MinRaw(d, k).None? <==> k == 0
  {
    if k > 0 {
      MinRawZeroIff(d, k - 1);
    }
  }

  /** With entropies never negative, both figures are zero exactly when every entropy is. */
  lemma {:induction false} TotalZeroIff(es: seq<Option<real>>)
    requires forall i :: 0 <= i < |es| && es[i].Some? ==> es[i].value >= 0.0
    ensures TotalOf(es) >= 0.0
    ensures TotalOf(es) == 0.0 <==> forall i :: 0 <= i < |es| && es[i].Some? ==> es[i].value == 0.0
  {
    if es != [] {
      var n := |es| - 1;
      TotalZeroIff(es[..n]);
      assert forall i :: 0 <= i < n ==> es[..n][i] == es[i];
    }
  }

  lemma {:induction false} NoneCounted(es: seq<Option<real>>)
    ensures CountOf(es) == 0 ==> TotalOf(es) == 0.0
  {
    if es != [] {
      NoneCounted(es[..|es| - 1]);
    }
  }

  lemma QuotientZero(t: real, n: nat)
    requires n > 0
    ensures t / n as real == 0.0 <==> t == 0.0
  {
    assert (t / n as real) * n as real == t;
  }

  lemma FiguresZeroIff(es: seq<Option<real>>, entropy: Entropy)
    requires Summarizes(es, entropy) && forall i :: 0 <= i < |es| && es[i].Some? ==> es[i].value >= 0.0
    ensures var average := if entropy.counted > 0 then entropy.total / entropy.counted as real else 0.0;
            entropy.max == 0.0 && average == 0.0 <==> forall i :: 0 <= i < |es| && es[i].Some? ==> es[i].value == 0.0
  {
    TotalZeroIff(es);
    NoneCounted(es);
    if entropy.counted > 0 {
      QuotientZero(entropy.total, entropy.counted);
    }
  }

  /**
   * What silence means in the file, with entropies that are never negative: no section scanned
   * has a packer's name, one has no raw data unless none is scanned, and no data has any entropy.
   */
  lemma SilentIff(d: seq<Byte>, entropyOf: (nat, nat) -> real, r: Result, entropy: Entropy)
    requires Parsed(d, entropyOf, r, entropy) && forall a, b :: entropyOf(a, b) >= 0.0
    ensures SectionsSilent(r) <==>
              && (forall i :: 0 <= i < Scans(d) ==> !Suspicious(d, i))
              && (Scans(d) == 0 || exists i :: 0 <= i < Scans(d) && RawSize(d, i) == 0)
              && (forall i :: 0 <= i < Scans(d) && SectionEntropy(d, i, entropyOf).Some? ==> SectionEntropy(d, i, entropyOf).value == 0.0)
  {
    var k := Scans(d);
    SuspiciousSome(d, k);
    MinRawZeroIff(d, k);
    EntropiesAt(d, k, entropyOf);
    FiguresZeroIff(Entropies(d, k, entropyOf), entropy);
  }

  /** A file of `n` bytes: the two signatures, one section declared, and an optional header of two bytes holding the PE32+ magic. */
  function Sample(n: nat): (d: seq<Byte>)
    ensures |d| == n
  {
    seq(n, i requires 0 <= i < n =>
      if i == 0 then 0x4D else if i == 1 then 0x5A
      else if i == 0x3C then 64
      else if i == 64 then 0x50 else if i == 65 then 0x45
      else if i == 70 then 1
      else if i == 84 then 2
      else if i == 88 then 0x0B else if i == 89 then 0x02
      else 0)
  }

  /** There is a file of each kind: all 90 bytes of the sample ... */
  lemma ShortPlusExists()
    ensures IsPe(Sample(90)) && ShortPlus(Sample(90)) && !Agree(Sample(90))
  {
    var d := Sample(90);
    assert U32(d, 0x3C) == 64;
    assert U16(d, 84) == 2 && U16(d, 88) == 0x20B;
    FallbackAgreement(d);
  }

  /** ... and its first 72. */
  lemma CutOffExists()
    ensures IsPe(Sample(72)) && CutOff(Sample(72)) && !Agree(Sample(72))
  {
    var d := Sample(72);
    assert U32(d, 0x3C) == 64;
    SliceWord(d, 70);
    assert U16(d, 70) == 1;
    FallbackAgreement(d);
  }

  /** A file with one section of raw size one, and nothing else to say. */
  function Sectioned(): (d: seq<Byte>)
    ensures |d| == 130
  {
    seq(130, i requires 0 <= i < 130 =>
      if i == 0 then 0x4D else if i == 1 then 0x5A
      else if i == 0x3C then 64
      else if i == 64 then 0x50 else if i == 65 then 0x45
      else if i == 70 then 1
      else if i == 84 then 2
      else if i == 106 then 1
      else 0)
  }

  lemma SectionedHeaders()
    ensures var d := Sectioned();
            && HasOptional(d) && Lfanew(d) == 64 && !Is64(d) && SectionCount(d) == 1 && OptionalSize(d) == 2
            && U32(d, 106) == 1
  {
    var d := Sectioned();
    assert U32(d, 0x3C) == 64;
    assert U16(d, 70) == 1 && U16(d, 84) == 2 && U16(d, 88) == 0;
  }

  /** On it both agree on the three fields, and yet not as a whole: the minimum raw size is one, and the fallback says zero. */
  lemma RawSizeDiffers(t: Triage)
    requires Reports(Sectioned(), t)
    ensures IsPe(Sectioned()) && Agree(Sectioned()) && t.minRaw == 1
    ensures FastPeTriage(Sectioned()).Some? && FastPeTriage(Sectioned()).value.triage.minRaw == 0
  {
    var d := Sectioned();
    SectionedHeaders();
    assert Scans(d) == 1 && RawSize(d, 0) == 1;
    assert MinRaw(d, 0) == None;
    FallbackAgreement(d);
    PlainResult(d);
  }
}
