/** replace_strings (extra/replace.c): running the machine over a text. */
module ReplaceRun {
  import opened Prelude
  import opened ReplaceSpec
  import opened ReplaceProgress
  import opened ReplaceSets
  import opened ReplaceEntries
  import opened ReplaceCount
  import opened ReplaceInit

  /** REPLACE_STRING: what to write, and how far to go back in the output and in the text. */
  datatype ReplaceString = ReplaceString(replaceString: seq<Byte>, toOffset: int, fromOffset: int)

  function ReplaceStringOf(from: seq<seq<Byte>>, to: seq<seq<Byte>>, f: FoundSet): ReplaceString
    requires |to| == |from|
  {
    if 0 <= f.tableOffset < |from|
    then ReplaceString(to[f.tableOffset], f.foundOffset, f.foundOffset - |from[f.tableOffset]|)
    else ReplaceString([], 0, 0)
  }

  /** `*to++ = b`, with the growth of the buffer before it; the last byte stays free. */
  method Put(buf: array<Byte>, pos: nat, b: Byte, doubling: bool) returns (out: array<Byte>)
    requires pos < buf.Length
    modifies buf
    ensures out == buf || fresh(out)
    ensures pos + 1 < out.Length && out[..pos + 1] == old(buf[..pos]) + [b]
  {
    out := buf;
    if pos == buf.Length - 1 {
      out := new Byte[if doubling then 2 * buf.Length else buf.Length + 8192](_ => 0);
      var i := 0;
      while i < pos
        invariant i <= pos && out[..i] == buf[..i] && buf[..] == old(buf[..])
      {
        out[i] := buf[i];
        i := i + 1;
      }
    }
    assert out[..pos] == old(buf[..pos]);
    ghost var before := out[..pos];
    out[pos] := b;
    assert out[..pos + 1] == before + [b];
  }

  // ---------------------------------------------------------------- what a decision means

  /** The machine has decided on the occurrence that the naive scanner would find first. */
  lemma DecisionIsRight(from: seq<seq<Byte>>, rest: seq<Byte>, k: nat, tableOffset: int, foundOffset: int)
    requires PlainStrings(from) && k <= |rest| + 1
    requires var w := (rest + [0])[..k]; Decided(from, w) && Noted(from, w, tableOffset, foundOffset)
    ensures 0 <= tableOffset < |from| && 0 <= foundOffset <= k
    ensures FirstMatch(from, rest, 0) == Some(Match(k - foundOffset, tableOffset))
    ensures Occurs(from, rest, tableOffset, k - foundOffset) && from[tableOffset] != []
  {
    hide FirstMatch, Noted;
    var s := rest + [0];
    var w := s[..k];
    var m := NotedMatch(from, w, tableOffset, foundOffset);
    DecidedStays(from, w, s[k..], m);
    assert w + s[k..] == s;
    NothingAtNul(from, rest, m);
    BestIsFirstMatch(from, rest, m);
    BestOccurs(from, rest, m);
  }

  lemma NotedMatch(from: seq<seq<Byte>>, w: seq<Byte>, tableOffset: int, foundOffset: int) returns (m: Match)
    requires HasMatch(from, w) && Noted(from, w, tableOffset, foundOffset)
    ensures Best(from, w, m) && tableOffset == m.str && foundOffset == |w| - m.start && m.start <= |w|
  {
    m :| Best(from, w, m);
    assert Occurs(from, w, m.str, m.start);
  }

  lemma BestOccurs(from: seq<seq<Byte>>, w: seq<Byte>, m: Match)
    requires PlainStrings(from) && Best(from, w, m)
    ensures Occurs(from, w, m.str, m.start) && from[m.str] != []
  {
  }

  /** The end without anything found: nothing is left to replace. */
  lemma NothingLeft(from: seq<seq<Byte>>, to: seq<seq<Byte>>, rest: seq<Byte>)
    requires PlainStrings(from) && |to| == |from| && !HasMatch(from, rest)
    ensures FirstMatch(from, rest, 0).None? && Replaced(from, to, rest) == rest
  {
    FirstMatchIsBest(from, rest, 0);
    if FirstMatch(from, rest, 0).Some? {
      assert Best(from, rest, FirstMatch(from, rest, 0).value);
    }
  }

  /** One step of the machine. */
  lemma StepIsRight(from: seq<seq<Byte>>, m: Machine, q: nat, w: seq<Byte>, c: Byte)
    requires PlainStrings(from) && MachineOk(from, m) && q < |m.sets| && Describes(from, w, m.sets[q])
    ensures |m.next[q]| == 256 && NextOk(from, m.sets, m.found, w, c, m.next[q][c])
    ensures c == 0 ==> m.next[q][c] < 0
    ensures m.next[q][c] >= -1 ==> m.next[q][c] >= 0 || (c == 0 && !HasMatch(from, w))
  {
    assert RowOk(from, m.sets, m.found, m.sets[q], m.next[q]);
    assert EntryOk(from, m.sets, m.found, m.sets[q], c, m.next[q][c]);
    if c == 0 && HasMatch(from, w) {
      EndOfText(from, w, m.sets[q]);
    }
  }

  // ---------------------------------------------------------------- the loop

  /** One turn of the inner loop. */
  lemma ScanStep(from: seq<seq<Byte>>, m: Machine, v: nat, text: seq<Byte>, base: nat, src: nat)
    requires PlainStrings(from) && MachineOk(from, m) && 0 !in text && base <= src <= |text|
    requires v < |m.sets| && Describes(from, (text + [0])[base..src], m.sets[v])
    ensures var s := text + [0]; |m.next| == |m.sets| && |m.next[v]| == 256 && var v' := m.next[v][s[src]];
      && s[base..src + 1] == s[base..src] + [s[src]]
      && (v' >= 0 ==> src + 1 <= |text| && v' < |m.sets| && Describes(from, s[base..src + 1], m.sets[v']))
      && (v' == -1 ==> src == |text| && !HasMatch(from, text[base..]))
      && (v' < -1 ==> IsFound(from, m.found, s[base..src + 1], v'))
  {
    var s := text + [0];
    var w, c := s[base..src], s[src];
    StepIsRight(from, m, v, w, c);
    assert |m.next| == |m.sets|;
    hide Describes, HasMatch, PlainStrings, MachineOk, IsFound;
    assert s[base..src + 1] == w + [c];
    assert c == 0 ==> src == |text| && w == text[base..];
  }

  /** The inner loop: reads on from set `q` until the machine leaves the sets. */
  method Scan(from: seq<seq<Byte>>, m: Machine, q: nat, text: seq<Byte>, base: nat, buf: array<Byte>, pos: nat)
    returns (out: array<Byte>, v: int, src: nat)
    requires PlainStrings(from) && MachineOk(from, m) && 0 !in text && base <= |text|
    requires q < |m.sets| && Describes(from, [], m.sets[q]) && pos < buf.Length
    modifies buf
    ensures out == buf || fresh(out)
    ensures base <= src <= |text| + 1 && pos + (src - base) < out.Length
    ensures out[..pos + (src - base)] == old(buf[..pos]) + (text + [0])[base..src]
    ensures v < 0
    ensures v == -1 ==> src == |text| + 1 && !HasMatch(from, text[base..])
    ensures v != -1 ==> IsFound(from, m.found, (text + [0])[base..src], v)
  {
    hide Describes, HasMatch, PlainStrings, MachineOk, IsFound;
    var s := text + [0];
    out, v, src := buf, q, base;
    assert s[base..base] == [];
    ghost var before := buf[..pos];
    while v >= 0
      invariant out == buf || fresh(out)
      invariant base <= src <= |text| + 1 && pos + (src - base) < out.Length
      invariant out[..pos + (src - base)] == before + s[base..src]
      invariant v >= 0 ==> src <= |text| && v < |m.sets| && Describes(from, s[base..src], m.sets[v])
      invariant v == -1 ==> src == |text| + 1 && !HasMatch(from, text[base..])
      invariant v < -1 ==> IsFound(from, m.found, s[base..src], v)
      decreases |text| + 1 - src
    {
      var c := s[src];
      ScanStep(from, m, v, text, base, src);
      v := m.next[v][c];
      out := Put(out, pos + (src - base), c, false);
      src := src + 1;
    }
  }

  method PutAll(buf: array<Byte>, pos: nat, bytes: seq<Byte>) returns (out: array<Byte>, end: nat)
    requires pos < buf.Length
    modifies buf
    ensures out == buf || fresh(out)
    ensures end == pos + |bytes| < out.Length && out[..end] == old(buf[..pos]) + bytes
  {
    out, end := buf, pos;
    var i := 0;
    while i < |bytes|
      invariant i <= |bytes| && end == pos + i < out.Length && (out == buf || fresh(out))
      invariant out[..end] == old(buf[..pos]) + bytes[..i]
    {
      out := Put(out, end, bytes[i], true);
      end := end + 1;
      i := i + 1;
    }
  }

  /** After the first match the scanner goes on behind it. */
  lemma ReplacedFrom(from: seq<seq<Byte>>, to: seq<seq<Byte>>, text: seq<Byte>, base: nat, m: Match, next: nat)
    requires PlainStrings(from) && |to| == |from| && base <= |text| && m.str < |from|
    requires FirstMatch(from, text[base..], 0) == Some(m) && Occurs(from, text[base..], m.str, m.start)
    requires from[m.str] != [] && next == base + m.start + |from[m.str]|
    ensures base < next <= |text| && m.start <= |text[base..]|
    ensures Replaced(from, to, text[base..]) == text[base..][..m.start] + to[m.str] + Replaced(from, to, text[next..])
  {
    hide FirstMatch;
    var rest: seq<Byte>, behind: nat := text[base..], m.start + |from[m.str]|;
    DropDrop(text, base, behind);
    ReplacedOnce(from, to, rest, m);
  }

  lemma DropDrop(text: seq<Byte>, base: nat, more: nat)
    requires base + more <= |text|
    ensures text[base..][more..] == text[base + more..]
  {
  }

  lemma ReplacedOnce(from: seq<seq<Byte>>, to: seq<seq<Byte>>, rest: seq<Byte>, m: Match)
    requires PlainStrings(from) && |to| == |from| && m.str < |from|
    requires FirstMatch(from, rest, 0) == Some(m) && m.start + |from[m.str]| <= |rest|
    ensures Replaced(from, to, rest) == rest[..m.start] + to[m.str] + Replaced(from, to, rest[m.start + |from[m.str]|..])
  {
    hide FirstMatch, Occurs, PlainStrings;
  }

  /** The bytes from the found occurrence on are taken back from the output. */
  lemma TakenBack(out: seq<Byte>, before: seq<Byte>, text: seq<Byte>, base: nat, src: nat, a: nat)
    requires base <= src <= |text| + 1 && base + a <= |text| && base + a <= src && |before| + (src - base) <= |out|
    requires out[..|before| + (src - base)] == before + (text + [0])[base..src]
    ensures out[..|before| + a] == before + text[base..][..a]
  {
    assert out[..|before| + a] == out[..|before| + (src - base)][..|before| + a];
    assert (text + [0])[base..src][..a] == text[base..][..a];
  }

  /** One round of replace_strings: from one replacement to the next. */
  method Round(from: seq<seq<Byte>>, to: seq<seq<Byte>>, m: Machine, q: nat, text: seq<Byte>, base: nat, buf: array<Byte>, pos: nat)
    returns (out: array<Byte>, found: bool, src: nat, end: nat)
    requires PlainStrings(from) && |to| == |from| && MachineOk(from, m) && 0 !in text && base <= |text|
    requires q < |m.sets| && Describes(from, [], m.sets[q]) && pos < buf.Length
    modifies buf
    ensures out == buf || fresh(out)
    ensures found <==> FirstMatch(from, text[base..], 0).Some?
    ensures !found ==> end <= out.Length && out[..end] == old(buf[..pos]) + Replaced(from, to, text[base..])
    ensures found ==> base < src <= |text| && end < out.Length
    ensures found ==> out[..end] + Replaced(from, to, text[src..]) == old(buf[..pos]) + Replaced(from, to, text[base..])
  {
    hide Replaced, FirstMatch, MachineOk, PlainStrings, Describes, Occurs, Decided, Noted, HasMatch;
    ghost var before, rest := buf[..pos], text[base..];
    var v;
    out, v, src := Scan(from, m, q, text, base, buf, pos);
    end := pos + (src - base);
    ghost var read := (text + [0])[base..src];
    assert read == (rest + [0])[..src - base];
    found := v != -1;
    if !found {
      WithoutMatch(from, to, out[..], before, text, base, src);
      end := end - 1;
      return;
    }
    var f := m.found[-v - 2];
    DecisionIsRight(from, rest, src - base, f.tableOffset, f.foundOffset);
    var repStr := ReplaceStringOf(from, to, f);
    WithMatch(from, to, out[..], before, text, base, src, f.tableOffset, f.foundOffset);
    end := end - repStr.toOffset;
    ghost var kept := out[..end];
    out, end := PutAll(out, end, repStr.replaceString);
    src := src - repStr.fromOffset;
    assert out[..end] == kept + to[f.tableOffset];
  }

  /** The rest of the text has been copied. */
  lemma WithoutMatch(from: seq<seq<Byte>>, to: seq<seq<Byte>>, out: seq<Byte>, before: seq<Byte>, text: seq<Byte>, base: nat, src: nat)
    requires PlainStrings(from) && |to| == |from| && base <= |text| && src == |text| + 1 && !HasMatch(from, text[base..])
    requires |before| + (src - base) <= |out| && out[..|before| + (src - base)] == before + (text + [0])[base..src]
    ensures FirstMatch(from, text[base..], 0).None?
    ensures out[..|before| + (src - base) - 1] == before + Replaced(from, to, text[base..])
  {
    hide Replaced, FirstMatch, PlainStrings, HasMatch;
    var rest := text[base..];
    NothingLeft(from, to, rest);
    TakenBack(out, before, text, base, src, |rest|);
    assert rest[..|rest|] == rest;
  }

  /** The text before the match has been copied, and more, which is taken back. */
  lemma WithMatch(from: seq<seq<Byte>>, to: seq<seq<Byte>>, out: seq<Byte>, before: seq<Byte>, text: seq<Byte>, base: nat, src: nat, table: nat, back: nat)
    requires PlainStrings(from) && |to| == |from| && base <= |text| && base <= src <= |text| + 1 && back <= src - base && table < |from|
    requires FirstMatch(from, text[base..], 0) == Some(Match(src - base - back, table))
    requires Occurs(from, text[base..], table, src - base - back) && from[table] != []
    requires |before| + (src - base) <= |out| && out[..|before| + (src - base)] == before + (text + [0])[base..src]
    ensures base < src - back + |from[table]| <= |text|
    ensures out[..|before| + (src - base) - back] + to[table] + Replaced(from, to, text[src - back + |from[table]|..])
            == before + Replaced(from, to, text[base..])
  {
    hide Replaced, FirstMatch, PlainStrings, Occurs;
    var a: nat := src - base - back;
    ReplacedFrom(from, to, text, base, Match(a, table), src - back + |from[table]|);
    TakenBack(out, before, text, base, src, a);
  }

  /** replace_strings: the output is the naive scanner's, and `updated` says if anything was replaced. */
  method ReplaceStrings(from: seq<seq<Byte>>, to: seq<seq<Byte>>, m: Machine, text: seq<Byte>, buf: array<Byte>)
    returns (out: array<Byte>, length: nat, updated: bool)
    requires PlainStrings(from) && |to| == |from| && MachineOk(from, m) && 0 !in text
    requires buf.Length > 0
    modifies buf
    ensures length <= out.Length && out[..length] == Replaced(from, to, text)
    ensures updated <==> FirstMatch(from, text, 0).Some?
  {
    var base: nat, pos: nat, q := 0, 0, 1;
    out, updated := buf, false;
    StartsDescribe(from, m);
    assert text[0..] == text;
    hide Replaced, FirstMatch, MachineOk, PlainStrings, Describes;
    while true
      invariant out == buf || fresh(out)
      invariant base <= |text| && pos < out.Length && 0 <= q <= 1
      invariant Replaced(from, to, text) == out[..pos] + Replaced(from, to, text[base..])
      invariant if updated then FirstMatch(from, text, 0).Some? else base == 0
      decreases |text| - base
    {
      var found, src;
      out, found, src, pos := Round(from, to, m, q, text, base, out, pos);
      if !found {
        length := pos;
        return;
      }
      updated := true;
      if src == |text| {
        EmptyRest(from, to, text[src..]);
        length := pos;
        return;
      }
      base, q := src, 0;
    }
  }

  lemma StartsDescribe(from: seq<seq<Byte>>, m: Machine)
    requires PlainStrings(from) && MachineOk(from, m)
    ensures |m.sets| >= 2 && Describes(from, [], m.sets[0]) && Describes(from, [], m.sets[1])
  {
    NothingReadIsFresh(from);
  }

  lemma EmptyRest(from: seq<seq<Byte>>, to: seq<seq<Byte>>, rest: seq<Byte>)
    requires PlainStrings(from) && |to| == |from| && rest == []
    ensures Replaced(from, to, rest) == []
  {
  }

  /** Building the machine and running it over one text: what the program is for. */
  method Replace(from: seq<seq<Byte>>, to: seq<seq<Byte>>, text: seq<Byte>) returns (r: Option<seq<Byte>>)
    requires |to| == |from| && 0 !in text && forall j | 0 <= j < |from| :: 0 !in from[j] && 92 !in from[j]
    requires PlainStrings(from) ==> TableFits(from)
    ensures r.None? <==> exists j :: 0 <= j < |from| && from[j] == []
    ensures r.Some? ==> PlainStrings(from) && r.value == Replaced(from, to, text)
  {
    var m := InitReplace(from);
    if m.None? {
      return None;
    }
    hide MachineOk, TableFits, Replaced, FirstMatch;
    var buf := new Byte[8192](_ => 0);
    var out, length, updated := ReplaceStrings(from, to, m.value, text, buf);
    r := Some(out[..length]);
  }
}
