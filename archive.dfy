/**
 * The archive exporter: `buildZip` (tm_capture_page.h lines 211-224) and the
 * names it gives the files inside the archive and the archive itself.
 */
module Archive {
  import opened Types
  import opened Numerals

  /** One file of the archive. */
  datatype Entry = Entry(name: string, data: Frame)

  /** The files of a JSZip object, in the order they were first added. */
  type Zip = seq<Entry>

  function Names(zip: Zip): (names: seq<string>)
    ensures |names| == |zip|
    ensures forall k :: 0 <= k < |zip| ==> names[k] == zip[k].name
  {
    if zip == [] then [] else [zip[0].name] + Names(zip[1..])
  }

  /**
   * `zip.file(name, data)`: a file of the same name is replaced where it
   * stands; otherwise the file is added after the others.
   */
  function AddFile(zip: Zip, name: string, data: Frame): (r: Zip)
    ensures |r| == if name in Names(zip) then |zip| else |zip| + 1
    ensures Entry(name, data) in r
    ensures forall k :: 0 <= k < |zip| && zip[k].name != name ==> r[k] == zip[k]
  {
    if zip == [] then [Entry(name, data)]
    else if zip[0].name == name then [Entry(name, data)] + zip[1..]
    else [zip[0]] + AddFile(zip[1..], name, data)
  }

  /** Adding a file under a name the archive does not hold yet appends it. */
  lemma {:induction false} AddNewFile(zip: Zip, name: string, data: Frame)
    requires name !in Names(zip)
    ensures AddFile(zip, name, data) == zip + [Entry(name, data)]
  {
    if zip != [] {
      AddNewFile(zip[1..], name, data);
      assert zip == [zip[0]] + zip[1..];
    }
  }

  const EntryPrefix := "capture_"
  const EntrySuffix := ".jpg"

  /** The name of the frame at 0-based position `index` of the capture buffer. */
  function EntryName(index: nat): (name: string)
    ensures |name| >= |EntryPrefix| + 4 + |EntrySuffix|
    ensures name[..|EntryPrefix|] == EntryPrefix
    ensures name[|name| - |EntrySuffix|..] == EntrySuffix
  {
    EntryPrefix + PadStart(Decimal(index + 1), 4, '0') + EntrySuffix
  }

  /**
   * Reads a buffer position back from an entry name: `capture_`, then a
   * 1-based index in decimal digits, then `.jpg`.
   */
  function ParseEntryName(name: string): (r: Option<nat>)
    ensures r.Some? ==> |name| >= |EntryPrefix| + |EntrySuffix| + 1
    ensures r.Some? ==> name[..|EntryPrefix|] == EntryPrefix
    ensures r.Some? ==> name[|name| - |EntrySuffix|..] == EntrySuffix
  {
    if |name| < |EntryPrefix| + |EntrySuffix| + 1 then None
    else if name[..|EntryPrefix|] != EntryPrefix then None
    else if name[|name| - |EntrySuffix|..] != EntrySuffix then None
    else
      var digits := name[|EntryPrefix|..|name| - |EntrySuffix|];
      if AllDigits(digits) && Value(digits) > 0 then Some(Value(digits) - 1) else None
  }

  /** Every entry name reads back as the buffer position it was made from. */
  lemma EntryNameRoundTrip(index: nat)
    ensures ParseEntryName(EntryName(index)) == Some(index)
  {
    var padded := PadStart(Decimal(index + 1), 4, '0');
    var name := EntryName(index);
    ValueOfPadded(index + 1, 4);
    assert name[..|EntryPrefix|] == EntryPrefix;
    assert name[|name| - |EntrySuffix|..] == EntrySuffix;
    assert name[|EntryPrefix|..|name| - |EntrySuffix|] == padded;
  }

  /** Two buffer positions share a name only when they are the same position. */
  lemma EntryNameInjective(i: nat, j: nat)
    ensures EntryName(i) == EntryName(j) <==> i == j
  {
    EntryNameRoundTrip(i);
    EntryNameRoundTrip(j);
  }

  /** Up to position 9998 (index 9999) a name is `capture_` + exactly four digits + `.jpg`. */
  lemma EntryNameLength(index: nat)
    ensures |EntryName(index)| == if index + 1 < 10000 then 16 else 12 + |Decimal(index + 1)|
  {
    assert Pow10(4) == 10000;
  }

  lemma EntryNameExamples()
    ensures EntryName(0) == "capture_0001.jpg"
    ensures EntryName(1) == "capture_0002.jpg"
    ensures EntryName(2) == "capture_0003.jpg"
    ensures EntryName(9999) == "capture_10000.jpg"
  {
    SingleDigitEntryName(0, "capture_0001.jpg");
    SingleDigitEntryName(1, "capture_0002.jpg");
    SingleDigitEntryName(2, "capture_0003.jpg");
    FiveDigitEntryName();
  }

  /** Positions 0 to 8 carry their single digit behind three zeros. */
  lemma SingleDigitEntryName(index: nat, name: string)
    requires index < 9 && name == EntryPrefix + "000" + [DigitChar(index + 1)] + EntrySuffix
    ensures EntryName(index) == name
  {
    assert Decimal(index + 1) == [DigitChar(index + 1)];
    assert PadStart(Decimal(index + 1), 4, '0') == "000" + [DigitChar(index + 1)];
  }

  lemma FiveDigitEntryName()
    ensures EntryName(9999) == "capture_10000.jpg"
  {
    assert Decimal(10) == "10";
    assert Decimal(100) == Decimal(10) + ['0'];
    assert Decimal(1000) == Decimal(100) + ['0'];
    assert Decimal(10000) == Decimal(1000) + ['0'];
    assert PadStart(Decimal(10000), 4, '0') == "10000";
  }

  /** `zip` holds exactly the frames of `captures`, in buffer order, under their entry names. */
  predicate IsArchiveOf(zip: Zip, captures: seq<Frame>) {
    |zip| == |captures| &&
    forall i :: 0 <= i < |zip| ==> zip[i] == Entry(EntryName(i), captures[i])
  }

  /** Three recorded frames are archived as `capture_0001.jpg` to `capture_0003.jpg`, in order. */
  lemma ArchiveOfThree(zip: Zip, f1: Frame, f2: Frame, f3: Frame)
    requires IsArchiveOf(zip, [f1, f2, f3])
    ensures zip == [Entry("capture_0001.jpg", f1), Entry("capture_0002.jpg", f2), Entry("capture_0003.jpg", f3)]
  {
    EntryNameExamples();
  }

  /** A single recorded frame is archived alone, under the first entry name. */
  lemma ArchiveOfOne(zip: Zip, frame: Frame)
    requires IsArchiveOf(zip, [frame])
    ensures zip == [Entry(EntryName(0), frame)]
  {
    assert zip[0] == Entry(EntryName(0), frame);
  }

  /** What every archive `buildZip` yields looks like: at least one file, named by position. */
  predicate WellFormedArchive(zip: Zip) {
    |zip| > 0 && forall i :: 0 <= i < |zip| ==> zip[i].name == EntryName(i)
  }

  /** The names in an archive of the buffer are pairwise distinct. */
  lemma ArchiveNamesDistinct(zip: Zip, captures: seq<Frame>)
    requires IsArchiveOf(zip, captures)
    ensures forall i, j :: 0 <= i < j < |zip| ==> zip[i].name != zip[j].name
  {
    forall i, j | 0 <= i < j < |zip| ensures zip[i].name != zip[j].name {
      EntryNameInjective(i, j);
    }
  }

  /** The next position's name is not yet in an archive of the frames before it. */
  lemma NameIsNew(zip: Zip, done: seq<Frame>)
    requires IsArchiveOf(zip, done)
    ensures EntryName(|done|) !in Names(zip)
  {
    forall k | 0 <= k < |zip| ensures Names(zip)[k] != EntryName(|done|) {
      EntryNameInjective(k, |done|);
    }
  }

  lemma ArchiveExtend(zip: Zip, done: seq<Frame>, frame: Frame)
    requires IsArchiveOf(zip, done)
    ensures IsArchiveOf(zip + [Entry(EntryName(|done|), frame)], done + [frame])
  {
    var longer := zip + [Entry(EntryName(|done|), frame)];
    forall i | 0 <= i < |longer| ensures longer[i] == Entry(EntryName(i), (done + [frame])[i]) {
      if i < |zip| {
        assert longer[i] == zip[i];
      }
    }
  }

  /**
   * `buildZip` up to `generateAsync`: fails when JSZip is absent, then when the
   * buffer is empty, and otherwise adds one file per frame in buffer order.
   */
  method BuildZip(zipLoaded: bool, captures: seq<Frame>) returns (r: Result<Zip>)
    ensures !zipLoaded ==> r == Err("JSZip not loaded")
    ensures zipLoaded && captures == [] ==> r == Err("Nothing to download")
    ensures r.Ok? <==> zipLoaded && captures != []
    ensures r.Ok? ==> IsArchiveOf(r.value, captures) && WellFormedArchive(r.value)
  {
    if !zipLoaded {
      return Err("JSZip not loaded");
    }
    if |captures| == 0 {
      return Err("Nothing to download");
    }
    var zip: Zip := [];
    var index := 0;
    while index < |captures|
      invariant 0 <= index <= |captures|
      invariant IsArchiveOf(zip, captures[..index])
    {
      var filename := EntryName(index);
      assert captures[..index + 1] == captures[..index] + [captures[index]];
      NameIsNew(zip, captures[..index]);
      AddNewFile(zip, filename, captures[index]);
      ArchiveExtend(zip, captures[..index], captures[index]);
      zip := AddFile(zip, filename, captures[index]);
      index := index + 1;
    }
    assert captures[..index] == captures;
    return Ok(zip);
  }

  const ArchivePrefix := "tm_captures_"
  const ArchiveSuffix := ".zip"

  /** The download name `tm_captures_<Date.now()>.zip`. */
  function ArchiveFileName(epochMillis: nat): (name: string)
    ensures |name| > |ArchivePrefix| + |ArchiveSuffix|
    ensures name[..|ArchivePrefix|] == ArchivePrefix
    ensures name[|name| - |ArchiveSuffix|..] == ArchiveSuffix
  {
    ArchivePrefix + Decimal(epochMillis) + ArchiveSuffix
  }

  /**
   * The archive's name carries the export time in decimal: exactly its digits,
   * with no leading zero, readable back as the time.
   */
  lemma ArchiveFileNameReadsBack(epochMillis: nat)
    ensures var name := ArchiveFileName(epochMillis);
      |name| == |ArchivePrefix| + |Decimal(epochMillis)| + |ArchiveSuffix| &&
      (name[|ArchivePrefix|] == '0' ==> epochMillis == 0) &&
      name[..|ArchivePrefix|] == ArchivePrefix &&
      name[|name| - |ArchiveSuffix|..] == ArchiveSuffix &&
      AllDigits(name[|ArchivePrefix|..|name| - |ArchiveSuffix|]) &&
      Value(name[|ArchivePrefix|..|name| - |ArchiveSuffix|]) == epochMillis
  {
    var name := ArchiveFileName(epochMillis);
    assert name[|ArchivePrefix|..|name| - |ArchiveSuffix|] == Decimal(epochMillis);
    ValueOfDecimal(epochMillis);
    DecimalNoLeadingZero(epochMillis);
  }
}
