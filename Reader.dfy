/** `read_file_content`: the text of one file, skipped when it is not a
    regular file, binary or unreadable, and cut at the tier's character
    limit with a notice naming that limit. */
module Reader {
  import opened Wrappers
  import opened Utils
  import opened PathModel

  /** What the file system holds at one path. `raw` is what `open(p, "rb")`
      reads (None when that raises OSError); `text` is what the text-mode
      `open(p, "r", encoding="utf-8", errors="ignore")` reads (None when it
      raises OSError). */
  datatype FileEntry =
    | NotAFile
    | RegularFile(raw: Option<seq<byte>>, text: Option<string>)

  const Tier1Limit: nat := 100_000
  const Tier2Limit: nat := 50_000

  function Limit(isTier1: bool): nat {
    if isTier1 then Tier1Limit else Tier2Limit
  }

  // ---------------------------------------------------------------------
  // Decimal rendering, for the notice

  function DigitChar(d: nat): char
    requires d < 10
  {
    "0123456789"[d]
  }

  /** `str(n)` for a natural number. */
  function NatToString(n: nat): (s: string)
    ensures |s| >= 1
    ensures forall i :: 0 <= i < |s| ==> '0' <= s[i] <= '9'
  {
    if n < 10 then [DigitChar(n)] else NatToString(n / 10) + [DigitChar(n % 10)]
  }

  /** The number a string of decimal digits denotes. */
  function DecimalValue(s: string): nat
    requires forall i :: 0 <= i < |s| ==> '0' <= s[i] <= '9'
  {
    if s == [] then 0
    else 10 * DecimalValue(s[..|s| - 1]) + (s[|s| - 1] as int - '0' as int)
  }

  /** Reading the rendered number back gives the number. */
  lemma {:induction false} NatToStringValue(n: nat)
    ensures DecimalValue(NatToString(n)) == n
    decreases n
  {
    var s := NatToString(n);
    if n < 10 {
      DigitValue(n);
      assert s[..0] == [];
    } else {
      NatToStringValue(n / 10);
      DigitValue(n % 10);
      var p, d := NatToString(n / 10), DigitChar(n % 10);
      assert s == p + [d];
      assert s[..|s| - 1] == p;
    }
  }

  lemma DigitValue(d: nat)
    requires d < 10
    ensures DigitChar(d) as int - '0' as int == d
  {
  }

  const NoticeHead: string := "\n\n... [TRUNCATED BY SENTIAL: File exceeded "
  const NoticeTail: string := " chars] ..."

  /** `str(limit)` for the tier's limit, written out. */
  function LimitText(isTier1: bool): string {
    if isTier1 then "100000" else "50000"
  }

  /** The notice appended to a truncated file. */
  function Notice(isTier1: bool): string {
    NoticeHead + LimitText(isTier1) + NoticeTail
  }

  /** The notice names the limit that was applied, in decimal. */
  lemma NoticeNamesLimit(isTier1: bool)
    ensures LimitText(isTier1) == NatToString(Limit(isTier1))
    ensures DecimalValue(LimitText(isTier1)) == Limit(isTier1)
  {
    if isTier1 { Tier1Text(); } else { Tier2Text(); }
    NatToStringValue(Limit(isTier1));
  }

  lemma Tier1Text()
    ensures NatToString(100000) == "100000"
  {
    assert NatToString(1) == "1";
    assert NatToString(10) == "10";
    assert NatToString(100) == "100";
    assert NatToString(1000) == "1000";
    assert NatToString(10000) == "10000";
  }

  lemma Tier2Text()
    ensures NatToString(50000) == "50000"
  {
    assert NatToString(5) == "5";
    assert NatToString(50) == "50";
    assert NatToString(500) == "500";
    assert NatToString(5000) == "5000";
  }

  // ---------------------------------------------------------------------
  // Reading

  /** `f.read(n)` on a text stream: at most `n` characters. */
  function ReadChars(text: string, n: nat): (r: string)
    ensures |r| <= n && IsPrefix(r, text)
    ensures |r| == n || r == text
  {
    if |text| <= n then text else text[..n]
  }

  /** `read_file_content(path, is_tier_1)`. */
  function ReadFileContent(f: FileEntry, isTier1: bool): (r: string)
    ensures f.NotAFile? ==> r == ""
    ensures f.RegularFile? && (IsBinaryFile(f.raw) || f.text.None?) ==> r == ""
  {
    var limit := Limit(isTier1);
    match f
    case NotAFile => ""
    case RegularFile(raw, text) =>
      if IsBinaryFile(raw) then ""
      else
        match text
        case None => ""
        case Some(t) =>
          // one character more than the limit tells whether there was more
          var content := ReadChars(t, limit + 1);
          if |content| > limit then content[..limit] + Notice(isTier1) else content
  }

  /** A readable text file: a regular file that passes the binary check and
      whose text can be read. */
  predicate Readable(f: FileEntry) {
    f.RegularFile? && !IsBinaryFile(f.raw) && f.text.Some?
  }

  /** Over the limit: exactly the first `limit` characters, then the notice. */
  lemma ReadTruncates(f: FileEntry, isTier1: bool)
    requires Readable(f) && |f.text.value| > Limit(isTier1)
    ensures var r := ReadFileContent(f, isTier1);
      && |r| == Limit(isTier1) + |Notice(isTier1)|
      && r[..Limit(isTier1)] == f.text.value[..Limit(isTier1)]
      && r[Limit(isTier1)..] == Notice(isTier1)
  {
  }

  /** The content never exceeds the limit by more than the notice. */
  lemma ReadBounded(f: FileEntry, isTier1: bool)
    ensures |ReadFileContent(f, isTier1)| <= Limit(isTier1) + |Notice(isTier1)|
  {
  }

  /** Within the limit: the text unchanged. */
  lemma ReadWhole(f: FileEntry, isTier1: bool)
    requires Readable(f) && |f.text.value| <= Limit(isTier1)
    ensures ReadFileContent(f, isTier1) == f.text.value
  {
  }

  /** The content is empty exactly when the file is skipped or its text is
      empty, so an empty result means "nothing to emit". */
  lemma ReadEmptyIff(f: FileEntry, isTier1: bool)
    ensures ReadFileContent(f, isTier1) == "" <==> !Readable(f) || f.text.value == ""
  {
  }

  /** The bounded read: no character past position `limit` + 1 of the text,
      and no byte past the first 1024, affects the result. */
  lemma BoundedRead(raw1: Option<seq<byte>>, raw2: Option<seq<byte>>, t1: string, t2: string, isTier1: bool)
    requires raw1.Some? <==> raw2.Some?
    requires raw1.Some? ==> Chunk(raw1.value) == Chunk(raw2.value)
    requires ReadChars(t1, Limit(isTier1) + 1) == ReadChars(t2, Limit(isTier1) + 1)
    ensures ReadFileContent(RegularFile(raw1, Some(t1)), isTier1)
         == ReadFileContent(RegularFile(raw2, Some(t2)), isTier1)
  {
    if raw1.Some? { OnlyChunkMatters(raw1.value, raw2.value); }
  }
}
