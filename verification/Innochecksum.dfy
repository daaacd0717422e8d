/** The page checksums of extra/innochecksum.c and what they detect. */
module Innochecksum {
  import opened Prelude
  import opened PageFold

  const FIL_PAGE_SPACE_OR_CHKSUM: nat := 0
  const FIL_PAGE_OFFSET: nat := 4
  const FIL_PAGE_LSN: nat := 16
  const FIL_PAGE_FILE_FLUSH_LSN: nat := 26
  const FIL_PAGE_DATA: nat := 38
  const FIL_PAGE_END_LSN_OLD_CHKSUM: nat := 8
  const UNIV_PAGE_SIZE: nat := 16384

  type Page = p: seq<Byte> | |p| == UNIV_PAGE_SIZE witness seq(UNIV_PAGE_SIZE, _ => 0)

  /** mach_read_from_4: most significant byte first. */
  function ReadFrom4(page: Page, at: nat): nat
    requires at + 4 <= UNIV_PAGE_SIZE
  {
    BigEndian(page[at], page[at + 1], page[at + 2], page[at + 3])
  }

  function BigEndian(b0: nat, b1: nat, b2: nat, b3: nat): nat {
    b0 * 16777216 + b1 * 65536 + b2 * 256 + b3
  }

  function FoldFrom(word: nat, fold: nat, bytes: seq<Byte>): nat
    requires IsWord(word)
    decreases |bytes|
  {
    if bytes == [] then fold else FoldFrom(word, FoldPair(word, fold, bytes[0]), bytes[1..])
  }

  /** ut_fold_binary. */
  method FoldBinary(word: nat, bytes: seq<Byte>) returns (fold: nat)
    requires IsWord(word)
    ensures fold == FoldFrom(word, 0, bytes)
  {
    fold := 0;
    var i := 0;
    while i < |bytes|
      invariant i <= |bytes|
      invariant FoldFrom(word, fold, bytes[i..]) == FoldFrom(word, 0, bytes)
    {
      assert bytes[i..][1..] == bytes[i + 1..];
      fold := FoldPair(word, fold, bytes[i]);
      i := i + 1;
    }
  }

  /** buf_calc_page_new_checksum: everything but the flush LSN, the checksum itself and the
      last 8 bytes. */
  function NewChecksum(word: nat, page: Page): nat
    requires IsWord(word)
  {
    (FoldFrom(word, 0, page[FIL_PAGE_OFFSET..FIL_PAGE_FILE_FLUSH_LSN])
     + FoldFrom(word, 0, page[FIL_PAGE_DATA..UNIV_PAGE_SIZE - FIL_PAGE_END_LSN_OLD_CHKSUM])) % word % TWO_32
  }

  /** buf_calc_page_old_checksum: the header only. */
  function OldChecksum(word: nat, page: Page): nat
    requires IsWord(word)
  {
    FoldFrom(word, 0, page[..FIL_PAGE_FILE_FLUSH_LSN]) % TWO_32
  }

  datatype Verdict = Okay | FailsLsn | FailsOld | FailsNew

  // The stored values.

  function NewField(page: Page): nat {
    ReadFrom4(page, FIL_PAGE_SPACE_OR_CHKSUM)
  }

  function OldField(page: Page): nat {
    ReadFrom4(page, UNIV_PAGE_SIZE - FIL_PAGE_END_LSN_OLD_CHKSUM)
  }

  function LsnHigh(page: Page): nat {
    ReadFrom4(page, FIL_PAGE_LSN)
  }

  function LsnLow(page: Page): nat {
    ReadFrom4(page, FIL_PAGE_LSN + 4)
  }

  function EndLsn(page: Page): nat {
    ReadFrom4(page, UNIV_PAGE_SIZE - FIL_PAGE_END_LSN_OLD_CHKSUM + 4)
  }

  /** The three tests of main, in its order. */
  function Judge(word: nat, page: Page): Verdict
    requires IsWord(word)
  {
    if LsnLow(page) != EndLsn(page) then FailsLsn
    else if OldField(page) != LsnHigh(page) && OldField(page) != OldChecksum(word, page) then FailsOld
    else if NewField(page) != 0 && NewChecksum(word, page) != NewField(page) then FailsNew
    else Okay
  }

  method CheckPage(word: nat, page: Page) returns (verdict: Verdict)
    requires IsWord(word)
    ensures verdict == Judge(word, page)
  {
    hide FoldFrom, ReadFrom4;
    var logseq := ReadFrom4(page, FIL_PAGE_LSN + 4);
    var logseqField := ReadFrom4(page, UNIV_PAGE_SIZE - FIL_PAGE_END_LSN_OLD_CHKSUM + 4);
    if logseq != logseqField {
      return FailsLsn;
    }
    var oldSum := FoldBinary(word, page[..FIL_PAGE_FILE_FLUSH_LSN]);
    var oldField := ReadFrom4(page, UNIV_PAGE_SIZE - FIL_PAGE_END_LSN_OLD_CHKSUM);
    if oldField != ReadFrom4(page, FIL_PAGE_LSN) && oldField != oldSum % TWO_32 {
      return FailsOld;
    }
    var header := FoldBinary(word, page[FIL_PAGE_OFFSET..FIL_PAGE_FILE_FLUSH_LSN]);
    var data := FoldBinary(word, page[FIL_PAGE_DATA..UNIV_PAGE_SIZE - FIL_PAGE_END_LSN_OLD_CHKSUM]);
    var newField := ReadFrom4(page, FIL_PAGE_SPACE_OR_CHKSUM);
    if newField != 0 && (header + data) % word % TWO_32 != newField {
      return FailsNew;
    }
    return Okay;
  }

  lemma SameNumber(a: seq<Byte>, b: seq<Byte>)
    requires |a| == |b| == 4
    ensures BigEndian(a[0], a[1], a[2], a[3]) == BigEndian(b[0], b[1], b[2], b[3]) <==> a == b
  {
    assert a == [a[0], a[1], a[2], a[3]] && b == [b[0], b[1], b[2], b[3]];
  }

  lemma SameField(page: Page, a: nat, b: nat)
    requires a + 4 <= UNIV_PAGE_SIZE && b + 4 <= UNIV_PAGE_SIZE
    ensures ReadFrom4(page, a) == ReadFrom4(page, b) <==> page[a..a + 4] == page[b..b + 4]
  {
    SameNumber(page[a..a + 4], page[b..b + 4]);
  }

  lemma ZeroField(page: Page)
    ensures NewField(page) == 0 <==> page[..4] == [0, 0, 0, 0]
  {
    SameNumber(page[..4], [0, 0, 0, 0]);
  }

  lemma SumIs(word: nat, page: Page)
    requires IsWord(word)
    ensures NewChecksum(word, page) == (FoldFrom(word, 0, page[4..26]) + FoldFrom(word, 0, page[38..16376])) % word % TWO_32
    ensures OldChecksum(word, page) == FoldFrom(word, 0, page[..26]) % TWO_32
  {
  }

  /** What each verdict says of the bytes of a page. */
  lemma JudgeMeans(word: nat, page: Page)
    requires IsWord(word)
    // the two copies of the low log sequence number differ: tested before any checksum is looked at
    ensures Judge(word, page) == FailsLsn <==> page[20..24] != page[16380..16384]
    // the old field is neither the high log sequence number nor the old checksum
    ensures Judge(word, page) == FailsOld <==>
      && page[20..24] == page[16380..16384]
      && page[16376..16380] != page[16..20] && ReadFrom4(page, 16376) != FoldFrom(word, 0, page[..26]) % TWO_32
    // there is a new checksum, and it is wrong
    ensures Judge(word, page) == FailsNew <==>
      && page[20..24] == page[16380..16384]
      && (page[16376..16380] == page[16..20] || ReadFrom4(page, 16376) == FoldFrom(word, 0, page[..26]) % TWO_32)
      && page[..4] != [0, 0, 0, 0]
      && ReadFrom4(page, 0) != (FoldFrom(word, 0, page[4..26]) + FoldFrom(word, 0, page[38..16376])) % word % TWO_32
  {
    SameField(page, 20, 16380);
    SameField(page, 16376, 16);
    ZeroField(page);
    SumIs(word, page);
    hide FoldFrom, ReadFrom4, NewChecksum, OldChecksum;
  }

  // ---------------------------------------------------------------- one byte changed

  lemma {:induction false} FoldKeeps(word: nat, a: nat, b: nat, bytes: seq<Byte>)
    requires IsWord(word) && Same(FoldFrom(word, a, bytes), FoldFrom(word, b, bytes), TWO_32)
    ensures Same(a, b, TWO_32)
    decreases |bytes|
  {
    if bytes != [] {
      hide Same, FoldPair;
      FoldKeeps(word, FoldPair(word, a, bytes[0]), FoldPair(word, b, bytes[0]), bytes[1..]);
      FoldPairKeeps(word, a, b, bytes[0]);
    }
  }

  lemma {:induction false} FoldSees(word: nat, fold: nat, bytes: seq<Byte>, k: nat, x: Byte)
    requires IsWord(word) && k < |bytes| && Same(FoldFrom(word, fold, bytes[k := x]), FoldFrom(word, fold, bytes), TWO_32)
    ensures bytes[k] == x
    decreases k
  {
    hide Same, FoldPair;
    var changed := bytes[k := x];
    if k == 0 {
      assert changed[1..] == bytes[1..];
      FoldKeeps(word, FoldPair(word, fold, x), FoldPair(word, fold, bytes[0]), bytes[1..]);
      FoldPairSees(word, fold, x, bytes[0]);
    } else {
      assert changed[1..] == bytes[1..][k - 1 := x];
      FoldSees(word, FoldPair(word, fold, bytes[0]), bytes[1..], k - 1, x);
    }
  }

  lemma SliceChanged(page: Page, k: nat, x: Byte, lo: nat, hi: nat)
    requires k < |page| && lo <= hi <= |page|
    ensures page[k := x][lo..hi] == if lo <= k < hi then page[lo..hi][k - lo := x] else page[lo..hi]
  {
  }

  lemma ReadChanged(page: Page, k: nat, x: Byte, at: nat)
    requires k < |page| && at + 4 <= UNIV_PAGE_SIZE && page[k] != x
    ensures ReadFrom4(page[k := x], at) == ReadFrom4(page, at) <==> !(at <= k < at + 4)
  {
  }

  lemma FieldsChanged(page: Page, k: nat, x: Byte)
    requires k < |page| && page[k] != x
    ensures NewField(page[k := x]) == NewField(page) <==> k >= 4
    ensures LsnHigh(page[k := x]) == LsnHigh(page) <==> !(16 <= k < 20)
    ensures LsnLow(page[k := x]) == LsnLow(page) <==> !(20 <= k < 24)
    ensures OldField(page[k := x]) == OldField(page) <==> !(16376 <= k < 16380)
    ensures EndLsn(page[k := x]) == EndLsn(page) <==> k < 16380
  {
    hide ReadFrom4;
    ReadChanged(page, k, x, 0);
    ReadChanged(page, k, x, 16);
    ReadChanged(page, k, x, 20);
    ReadChanged(page, k, x, 16376);
    ReadChanged(page, k, x, 16380);
  }

  lemma OldChecksumChanged(word: nat, page: Page, k: nat, x: Byte)
    requires IsWord(word) && k < |page| && page[k] != x
    ensures OldChecksum(word, page[k := x]) == OldChecksum(word, page) <==> k >= 26
  {
    var n := FIL_PAGE_FILE_FLUSH_LSN;
    SliceChanged(page, k, x, 0, n);
    if k < n && OldChecksum(word, page[k := x]) == OldChecksum(word, page) {
      FoldSees(word, 0, page[..n], k, x);
    }
  }

  /** Which bytes the new checksum covers. */
  predicate Covered(k: nat) {
    4 <= k < 26 || 38 <= k < 16376
  }

  lemma NewChecksumChanged(word: nat, page: Page, k: nat, x: Byte)
    requires IsWord(word) && k < |page| && page[k] != x
    ensures NewChecksum(word, page[k := x]) == NewChecksum(word, page) <==> !Covered(k)
  {
    hide FoldFrom, Same;
    var header, data := page[FIL_PAGE_OFFSET..FIL_PAGE_FILE_FLUSH_LSN], page[FIL_PAGE_DATA..UNIV_PAGE_SIZE - FIL_PAGE_END_LSN_OLD_CHKSUM];
    SliceChanged(page, k, x, FIL_PAGE_OFFSET, FIL_PAGE_FILE_FLUSH_LSN);
    SliceChanged(page, k, x, FIL_PAGE_DATA, UNIV_PAGE_SIZE - FIL_PAGE_END_LSN_OLD_CHKSUM);
    if FIL_PAGE_OFFSET <= k < FIL_PAGE_FILE_FLUSH_LSN {
      SumSees(word, header, k - FIL_PAGE_OFFSET, x, FoldFrom(word, 0, data));
    } else if Covered(k) {
      SumSees(word, data, k - FIL_PAGE_DATA, x, FoldFrom(word, 0, header));
    }
  }

  lemma SumSees(word: nat, bytes: seq<Byte>, k: nat, x: Byte, other: nat)
    requires IsWord(word) && k < |bytes| && bytes[k] != x
    ensures (FoldFrom(word, 0, bytes[k := x]) + other) % word % TWO_32 != (FoldFrom(word, 0, bytes) + other) % word % TWO_32
  {
    var changed, fold := FoldFrom(word, 0, bytes[k := x]), FoldFrom(word, 0, bytes);
    if (changed + other) % word % TWO_32 == (fold + other) % word % TWO_32 {
      SumChanged(word, changed, fold, other);
      FoldSees(word, 0, bytes, k, x);
    }
  }

  lemma SumChanged(word: nat, changed: nat, a: nat, b: nat)
    requires IsWord(word) && (changed + b) % word % TWO_32 == (a + b) % word % TWO_32
    ensures Same(changed, a, TWO_32)
  {
    CutOff(word, changed + b);
    CutOff(word, a + b);
    SameRest(b, b, changed, a, TWO_32);
  }

  /** Main theorem: what main says when one byte of an accepted page is changed. */
  lemma OneByteChanged(word: nat, page: Page, k: nat, x: Byte)
    requires IsWord(word) && k < |page| && page[k] != x && Judge(word, page) == Okay
    ensures Judge(word, page[k := x]) == Okay <==>
            // the flush LSN is not looked at
            || 26 <= k < 38
               // the checksum becomes 0, which means that there is none, or was 0 and becomes right,
               // and the old one does not show it
            || (k < 4 && (NewField(page[k := x]) == 0 || NewField(page[k := x]) == NewChecksum(word, page))
                && (OldField(page) == LsnHigh(page) || OldField(page) == OldChecksum(word, page[k := x])))
               // the old checksum becomes one of its two good values from the other
            || (16376 <= k < 16380 && (OldField(page[k := x]) == LsnHigh(page) || OldField(page[k := x]) == OldChecksum(word, page)))
               // without a checksum the data is not looked at, ...
            || (NewField(page) == 0 && 38 <= k < 16376)
               // ... and the header only by the old one
            || (NewField(page) == 0 && (4 <= k < 20 || 24 <= k < 26)
                && (OldField(page) == LsnHigh(page[k := x]) || OldField(page) == OldChecksum(word, page[k := x])))
  {
    hide NewField, OldField, LsnHigh, LsnLow, EndLsn, OldChecksum, NewChecksum;
    FieldsChanged(page, k, x);
    OldChecksumChanged(word, page, k, x);
    NewChecksumChanged(word, page, k, x);
  }

  // ---------------------------------------------------------------- the whole file

  /** Page `j` is one that main reads, completely or not. */
  predicate Looked(file: seq<Byte>, startPage: nat, useEndPage: bool, endPage: nat, j: nat) {
    startPage <= j && j * UNIV_PAGE_SIZE < |file| && (useEndPage ==> j <= endPage || j == startPage)
  }

  function PageAt(file: seq<Byte>, j: nat): Page
    requires (j + 1) * UNIV_PAGE_SIZE <= |file|
  {
    file[j * UNIV_PAGE_SIZE..(j + 1) * UNIV_PAGE_SIZE]
  }

  predicate GoodPage(word: nat, file: seq<Byte>, j: nat)
    requires IsWord(word)
  {
    (j + 1) * UNIV_PAGE_SIZE <= |file| && Judge(word, PageAt(file, j)) == Okay
  }

  ghost predicate GoodFile(word: nat, file: seq<Byte>, startPage: nat, useEndPage: bool, endPage: nat)
    requires IsWord(word)
  {
    forall j: nat | Looked(file, startPage, useEndPage, endPage, j) :: GoodPage(word, file, j)
  }

  lemma GoodPageMeans(word: nat, file: seq<Byte>, j: nat)
    requires IsWord(word)
    ensures GoodPage(word, file, j) <==>
      16384 * j + 16384 <= |file| && Judge(word, file[16384 * j..16384 * j + 16384]) == Okay
  {
    hide Judge;
  }

  lemma GoodFileMeans(word: nat, file: seq<Byte>, startPage: nat, useEndPage: bool, endPage: nat)
    requires IsWord(word)
    ensures GoodFile(word, file, startPage, useEndPage, endPage) <==>
      forall j: nat | startPage <= j && 16384 * j < |file| && (useEndPage ==> j <= endPage || j == startPage) ::
        GoodPage(word, file, j)
  {
    hide GoodPage;
    if GoodFile(word, file, startPage, useEndPage, endPage) {
      forall j: nat | startPage <= j && 16384 * j < |file| && (useEndPage ==> j <= endPage || j == startPage)
        ensures GoodPage(word, file, j)
      {
        assert Looked(file, startPage, useEndPage, endPage, j);
      }
    }
  }

  /** The loop of main: 0 says that every page from the first to the last asked for, or to the
      end of the file, is complete and good; the first one is looked at in any case. */
  method CheckFile(word: nat, file: seq<Byte>, startPage: nat, useEndPage: bool, endPage: nat) returns (code: int)
    requires IsWord(word)
    ensures code == 0 || code == 1
    ensures code == 0 <==> GoodFile(word, file, startPage, useEndPage, endPage)
  {
    hide Judge;
    var ct := startPage;
    while true
      invariant startPage <= ct && (useEndPage ==> ct <= endPage || ct == startPage)
      invariant forall j: nat | startPage <= j < ct :: GoodPage(word, file, j)
      decreases |file| - ct * UNIV_PAGE_SIZE
    {
      if ct * UNIV_PAGE_SIZE >= |file| {
        return 0;
      }
      assert Looked(file, startPage, useEndPage, endPage, ct);
      if (ct + 1) * UNIV_PAGE_SIZE > |file| {
        assert !GoodPage(word, file, ct);
        return 1;
      }
      var verdict := CheckPage(word, PageAt(file, ct));
      assert GoodPage(word, file, ct) <==> verdict == Okay;
      if verdict != Okay {
        return 1;
      }
      if useEndPage && ct >= endPage {
        return 0;
      }
      ct := ct + 1;
    }
  }

  /** A file that main accepts: any one byte changed in a log sequence number of a page, or in the
      covered part of a page that has a checksum, makes main reject it. */
  lemma ByteInFileDetected(word: nat, file: seq<Byte>, startPage: nat, useEndPage: bool, endPage: nat, j: nat, k: nat, x: Byte)
    requires IsWord(word) && GoodFile(word, file, startPage, useEndPage, endPage)
    requires Looked(file, startPage, useEndPage, endPage, j) && k < UNIV_PAGE_SIZE && (j + 1) * UNIV_PAGE_SIZE <= |file|
    requires 20 <= k < 24 || 16380 <= k || (Covered(k) && NewField(PageAt(file, j)) != 0)
    requires PageAt(file, j)[k] != x
    ensures !GoodFile(word, file[j * UNIV_PAGE_SIZE + k := x], startPage, useEndPage, endPage)
  {
    hide Judge, NewField, OldField;
    var changed := file[j * UNIV_PAGE_SIZE + k := x];
    assert GoodPage(word, file, j);
    assert PageAt(changed, j) == PageAt(file, j)[k := x];
    OneByteChanged(word, PageAt(file, j), k, x);
    assert Looked(changed, startPage, useEndPage, endPage, j) && !GoodPage(word, changed, j);
  }
}
