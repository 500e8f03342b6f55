/**
  make-oui-csv.py: recognise the "(hex)" lines of the IEEE OUI registry,
  collect one vendor name per OUI (warning about, and optionally merging,
  repeated listings), and project the collection to CSV rows.
*/
module MakeOuiCsv {
  import opened Results
  import opened Strings

  // -------------------------------------------------------------- OUI_REGEX

  predicate IsUpperHexDigit(c: char)
  {
    '0' <= c <= '9' || 'A' <= c <= 'F'
  }

  /** `[0-9A-F]{2}-[0-9A-F]{2}-[0-9A-F]{2}`, group 1 of OUI_REGEX. */
  predicate IsOuiText(s: string)
  {
    && |s| == 8 && s[2] == '-' && s[5] == '-'
    && IsUpperHexDigit(s[0]) && IsUpperHexDigit(s[1])
    && IsUpperHexDigit(s[3]) && IsUpperHexDigit(s[4])
    && IsUpperHexDigit(s[6]) && IsUpperHexDigit(s[7])
  }

  /** `\s` in a Python 3 pattern over `str`: the characters `str.isspace` accepts. */
  predicate IsSpace(c: char)
  {
    var n := c as int;
    || n == 0x20 || 0x09 <= n <= 0x0D || 0x1C <= n <= 0x1F
    || n == 0x85 || n == 0xA0 || n == 0x1680 || 0x2000 <= n <= 0x200A
    || n == 0x2028 || n == 0x2029 || n == 0x202F || n == 0x205F || n == 0x3000
  }

  predicate IsLineBreak(c: char)
  {
    c == '\r' || c == '\n'
  }

  predicate AllSpace(s: string)
  {
    forall i | 0 <= i < |s| :: IsSpace(s[i])
  }

  predicate NoLineBreak(s: string)
  {
    forall i | 0 <= i < |s| :: !IsLineBreak(s[i])
  }

  const HexTag: string := "(hex)"

  /** The length of the run of `\s` characters of `s` from `from`: greedy `\s*`. */
  function SpaceRun(s: string, from: nat): (n: nat)
    requires from <= |s|
    ensures from + n <= |s|
    decreases |s| - from
  {
    if from < |s| && IsSpace(s[from]) then 1 + SpaceRun(s, from + 1) else 0
  }

  /** The run is all whitespace and stops at the first character that is not. */
  lemma {:induction false} SpaceRunIsMaximal(s: string, from: nat)
    requires from <= |s|
    ensures forall i | from <= i < from + SpaceRun(s, from) :: IsSpace(s[i])
    ensures from + SpaceRun(s, from) == |s| || !IsSpace(s[from + SpaceRun(s, from)])
    decreases |s| - from
  {
    if from < |s| && IsSpace(s[from]) {
      SpaceRunIsMaximal(s, from + 1);
    }
  }

  /** A whitespace stretch ended by a character that is not whitespace (or by the end) is the run. */
  lemma SpaceRunOf(s: string, from: nat, n: nat)
    requires from + n <= |s|
    requires forall i | from <= i < from + n :: IsSpace(s[i])
    requires from + n == |s| || !IsSpace(s[from + n])
    ensures SpaceRun(s, from) == n
  {
    SpaceRunIsMaximal(s, from);
  }

  /** A whitespace stretch is never longer than the run it starts. */
  lemma SpaceRunCovers(s: string, from: nat, n: nat)
    requires from + n <= |s|
    requires forall i | from <= i < from + n :: IsSpace(s[i])
    ensures SpaceRun(s, from) >= n
  {
    SpaceRunIsMaximal(s, from);
  }

  /** The length of the run of characters other than CR and LF from `from`: greedy `[^\r\n]*`. */
  function TextRun(s: string, from: nat): (n: nat)
    requires from <= |s|
    ensures from + n <= |s|
    decreases |s| - from
  {
    if from < |s| && !IsLineBreak(s[from]) then 1 + TextRun(s, from + 1) else 0
  }

  /** The run holds no CR or LF and stops at the first one (or at the end). */
  lemma {:induction false} TextRunIsMaximal(s: string, from: nat)
    requires from <= |s|
    ensures forall i | from <= i < from + TextRun(s, from) :: !IsLineBreak(s[i])
    ensures from + TextRun(s, from) == |s| || IsLineBreak(s[from + TextRun(s, from)])
    decreases |s| - from
  {
    if from < |s| && !IsLineBreak(s[from]) {
      TextRunIsMaximal(s, from + 1);
    }
  }

  /** A stretch without CR or LF ended by one of them (or by the end) is the run. */
  lemma TextRunOf(s: string, from: nat, n: nat)
    requires from + n <= |s|
    requires forall i | from <= i < from + n :: !IsLineBreak(s[i])
    requires from + n == |s| || IsLineBreak(s[from + n])
    ensures TextRun(s, from) == n
  {
    TextRunIsMaximal(s, from);
  }

  /**
    How many of the `n` whitespace characters from `from` the second `\s+`
    keeps when the regex engine backtracks: the most that still leave a
    character other than CR and LF after them, or 0 when no count does.
  */
  function Backtrack(s: string, from: nat, n: nat): (k: nat)
    requires from + n <= |s|
    ensures k <= n
    ensures k > 0 ==> from + k < |s| && !IsLineBreak(s[from + k])
    decreases n
  {
    if n == 0 then 0
    else if from + n < |s| && !IsLineBreak(s[from + n]) then n
    else Backtrack(s, from, n - 1)
  }

  /** No longer count than the one kept leaves a character other than CR and LF after it. */
  lemma {:induction false} BacktrackIsLongest(s: string, from: nat, n: nat, j: nat)
    requires from + n <= |s|
    requires Backtrack(s, from, n) < j <= n
    ensures from + j == |s| || IsLineBreak(s[from + j])
    decreases n
  {
    if !(from + n < |s| && !IsLineBreak(s[from + n])) && j < n {
      BacktrackIsLongest(s, from, n - 1, j);
    }
  }

  /** Groups 1 and 2 of a successful match. */
  datatype OuiMatch = OuiMatch(oui: string, vendor: string)

  /**
    `OUI_REGEX.match(line)`, that is
    `^([0-9A-F]{2}-[0-9A-F]{2}-[0-9A-F]{2})\s+\(hex\)\s+([^\r\n]+)`
    anchored at the start of the line, with the greedy quantifiers and the
    backtracking of Python's engine.
  */
  function MatchLine(line: string): (m: Option<OuiMatch>)
    ensures m.Some? ==>
      && |line| >= 8 && m.value.oui == line[..8] && IsOuiText(m.value.oui)
      && m.value.vendor != []
  {
    if |line| < 8 || !IsOuiText(line[..8]) then None
    else
      var gap1 := SpaceRun(line, 8);
      var tag := 8 + gap1;
      if gap1 == 0 || |line| < tag + 5 || line[tag..tag + 5] != HexTag then None
      else
        var gap2 := Backtrack(line, tag + 5, SpaceRun(line, tag + 5));
        if gap2 == 0 then None
        else
          var start := tag + 5 + gap2;
          Some(OuiMatch(line[..8], line[start..start + TextRun(line, start)]))
  }

  /** How MatchLine reads a line once the lengths of its runs are known. */
  lemma MatchAt(line: string, tag: nat, start: nat, stop: nat)
    requires 8 < tag && tag + 5 < start < stop <= |line|
    requires IsOuiText(line[..8]) && line[tag..tag + 5] == HexTag
    requires SpaceRun(line, 8) == tag - 8
    requires Backtrack(line, tag + 5, SpaceRun(line, tag + 5)) == start - (tag + 5)
    requires TextRun(line, start) == stop - start
    ensures MatchLine(line) == Some(OuiMatch(line[..8], line[start..stop]))
  {
  }

  /**
    `line` begins with an OUI, whitespace, "(hex)", whitespace and a vendor
    text without CR or LF: the shape OUI_REGEX describes, read without
    regard to which way the engine splits it.
  */
  predicate Decomposes(line: string, oui: string, gap1: string, gap2: string, vendor: string, rest: string)
  {
    && line == oui + (gap1 + (HexTag + (gap2 + (vendor + rest))))
    && IsOuiText(oui)
    && gap1 != [] && AllSpace(gap1)
    && gap2 != [] && AllSpace(gap2)
    && vendor != [] && NoLineBreak(vendor)
  }

  /** The front and the back of a concatenation. */
  lemma Halves(s: string, a: string, b: string)
    requires s == a + b
    ensures s[..|a|] == a && s[|a|..] == b
  {
  }

  /** A suffix splits into a slice and the suffix after it. */
  lemma Rejoin(s: string, i: nat, j: nat)
    requires i <= j <= |s|
    ensures s[i..] == s[i..j] + s[j..]
  {
  }

  /** A piece found at `from` is the slice of that length there, and what follows it is the rest. */
  lemma PieceAt(line: string, from: nat, piece: string, after: string)
    requires from <= |line| && line[from..] == piece + after
    ensures from + |piece| <= |line|
    ensures line[from..from + |piece|] == piece && line[from + |piece|..] == after
  {
    Halves(line[from..], piece, after);
    assert line[from..from + |piece|] == line[from..][..|piece|];
  }

  /** A slice of whitespace makes each of its positions of `line` whitespace. */
  lemma SpacesIn(line: string, from: nat, to: nat)
    requires from <= to <= |line| && AllSpace(line[from..to])
    ensures forall i | from <= i < to :: IsSpace(line[i])
  {
    forall i | from <= i < to ensures IsSpace(line[i]) {
      assert line[i] == line[from..to][i - from];
    }
  }

  /** Where each part of a decomposed line lies. */
  lemma DecomposesAt(line: string, oui: string, gap1: string, gap2: string, vendor: string, rest: string)
    requires Decomposes(line, oui, gap1, gap2, vendor, rest)
    ensures var tag := 8 + |gap1|; var start := tag + 5 + |gap2|;
      && |line| == start + |vendor| + |rest|
      && line[..8] == oui
      && line[8..tag] == gap1
      && line[tag..tag + 5] == HexTag
      && line[tag + 5..start] == gap2
      && line[start..start + |vendor|] == vendor
      && line[start + |vendor|..] == rest
  {
    var tag := 8 + |gap1|;
    var q := tag + 5;
    var start := q + |gap2|;
    var s4 := vendor + rest;
    var s3 := gap2 + s4;
    var s2 := HexTag + s3;
    var s1 := gap1 + s2;
    Halves(line, oui, s1);
    PieceAt(line, 8, gap1, s2);
    PieceAt(line, tag, HexTag, s3);
    PieceAt(line, q, gap2, s4);
    PieceAt(line, start, vendor, rest);
  }

  /** A line whose positions hold an OUI, whitespace, "(hex)", whitespace and text without CR or LF decomposes. */
  lemma Assemble(line: string, tag: nat, start: nat, stop: nat)
    requires 8 < tag && tag + 5 < start < stop <= |line|
    requires IsOuiText(line[..8]) && line[tag..tag + 5] == HexTag
    requires forall i | 8 <= i < tag :: IsSpace(line[i])
    requires forall i | tag + 5 <= i < start :: IsSpace(line[i])
    requires forall i | start <= i < stop :: !IsLineBreak(line[i])
    ensures Decomposes(line, line[..8], line[8..tag], line[tag + 5..start], line[start..stop], line[stop..])
  {
    var q := tag + 5;
    var gap1, gap2, vendor := line[8..tag], line[q..start], line[start..stop];
    Rejoin(line, start, stop);
    Rejoin(line, q, start);
    Rejoin(line, tag, q);
    Rejoin(line, 8, tag);
    Rejoin(line, 0, 8);
    assert line[0..] == line && line[0..8] == line[..8];
    assert AllSpace(gap1) by {
      forall i | 0 <= i < |gap1| ensures IsSpace(gap1[i]) { assert gap1[i] == line[8 + i]; }
    }
    assert AllSpace(gap2) by {
      forall i | 0 <= i < |gap2| ensures IsSpace(gap2[i]) { assert gap2[i] == line[q + i]; }
    }
    assert NoLineBreak(vendor) by {
      forall i | 0 <= i < |vendor| ensures !IsLineBreak(vendor[i]) { assert vendor[i] == line[start + i]; }
    }
  }

  /** Where the parts of a matched line begin and end. */
  lemma MatchLineShape(line: string) returns (tag: nat, start: nat, stop: nat)
    requires MatchLine(line).Some?
    ensures 8 < tag && tag + 5 < start < stop <= |line|
    ensures IsOuiText(line[..8]) && line[tag..tag + 5] == HexTag
    ensures tag == 8 + SpaceRun(line, 8)
    ensures start - (tag + 5) <= SpaceRun(line, tag + 5)
    ensures stop == start + TextRun(line, start)
    ensures MatchLine(line).value == OuiMatch(line[..8], line[start..stop])
  {
    tag := 8 + SpaceRun(line, 8);
    var n := SpaceRun(line, tag + 5);
    start := tag + 5 + Backtrack(line, tag + 5, n);
    stop := start + TextRun(line, start);
  }

  /** A match splits the line in that shape, its vendor running up to the first CR or LF. */
  lemma MatchLineSound(line: string) returns (gap1: string, gap2: string, rest: string)
    requires MatchLine(line).Some?
    ensures Decomposes(line, MatchLine(line).value.oui, gap1, gap2, MatchLine(line).value.vendor, rest)
    ensures rest == [] || IsLineBreak(rest[0])
  {
    var tag, start, stop := MatchLineShape(line);
    SpaceRunIsMaximal(line, 8);
    SpaceRunIsMaximal(line, tag + 5);
    TextRunIsMaximal(line, start);
    Assemble(line, tag, start, stop);
    gap1, gap2, rest := line[8..tag], line[tag + 5..start], line[stop..];
    assert rest != [] ==> rest[0] == line[stop];
  }

  /** Every line of that shape is matched, with that OUI. */
  lemma MatchLineComplete(line: string, oui: string, gap1: string, gap2: string, vendor: string, rest: string)
    requires Decomposes(line, oui, gap1, gap2, vendor, rest)
    ensures MatchLine(line).Some? && MatchLine(line).value.oui == oui
  {
    DecomposesAt(line, oui, gap1, gap2, vendor, rest);
    var tag := 8 + |gap1|;
    var start := tag + 5 + |gap2|;
    SpacesIn(line, 8, tag);
    SpacesIn(line, tag + 5, start);
    assert !IsLineBreak(line[start]) by {
      assert line[start..start + |vendor|][0] == line[start] == vendor[0];
    }
    CompleteAt(line, tag, start);
  }

  /** MatchLineComplete, stated over the positions where the parts of the line begin. */
  lemma CompleteAt(line: string, tag: nat, start: nat)
    requires 8 < tag && tag + 5 < start < |line|
    requires IsOuiText(line[..8]) && line[tag..tag + 5] == HexTag
    requires forall i | 8 <= i < tag :: IsSpace(line[i])
    requires forall i | tag + 5 <= i < start :: IsSpace(line[i])
    requires !IsLineBreak(line[start])
    ensures MatchLine(line).Some? && MatchLine(line).value.oui == line[..8]
  {
    var q := tag + 5;
    assert line[tag] == line[tag..q][0];
    SpaceRunOf(line, 8, tag - 8);
    SpaceRunCovers(line, q, start - q);
    var n := SpaceRun(line, q);
    if Backtrack(line, q, n) < start - q {
      BacktrackIsLongest(line, q, n, start - q);
    }
  }

  /**
    For a vendor that starts with a character other than whitespace and runs
    to the end of the line or to a CR or LF, the match is exactly that OUI
    and that vendor.
  */
  lemma MatchLineOrdinary(line: string, oui: string, gap1: string, gap2: string, vendor: string, rest: string)
    requires Decomposes(line, oui, gap1, gap2, vendor, rest)
    requires !IsSpace(vendor[0]) && (rest == [] || IsLineBreak(rest[0]))
    ensures MatchLine(line) == Some(OuiMatch(oui, vendor))
  {
    DecomposesAt(line, oui, gap1, gap2, vendor, rest);
    var tag := 8 + |gap1|;
    var start := tag + 5 + |gap2|;
    var stop := start + |vendor|;
    SpacesIn(line, 8, tag);
    SpacesIn(line, tag + 5, start);
    assert line[start] == vendor[0] by {
      assert line[start..stop][0] == line[start];
    }
    assert stop < |line| ==> line[stop] == rest[0];
    forall i | start <= i < stop ensures !IsLineBreak(line[i]) {
      assert line[i] == line[start..stop][i - start];
    }
    OrdinaryAt(line, tag, start, stop);
    assert line[..8] == oui && line[start..stop] == vendor;
  }

  /** MatchLineOrdinary, stated over the positions where the parts of the line begin. */
  lemma OrdinaryAt(line: string, tag: nat, start: nat, stop: nat)
    requires 8 < tag && tag + 5 < start < stop <= |line|
    requires IsOuiText(line[..8]) && line[tag..tag + 5] == HexTag
    requires forall i | 8 <= i < tag :: IsSpace(line[i])
    requires forall i | tag + 5 <= i < start :: IsSpace(line[i])
    requires forall i | start <= i < stop :: !IsLineBreak(line[i])
    requires !IsSpace(line[start]) && (stop == |line| || IsLineBreak(line[stop]))
    ensures MatchLine(line) == Some(OuiMatch(line[..8], line[start..stop]))
  {
    var q := tag + 5;
    assert line[tag] == line[tag..q][0];
    SpaceRunOf(line, 8, tag - 8);
    SpaceRunOf(line, q, start - q);
    assert Backtrack(line, q, start - q) == start - q;
    TextRunOf(line, start, stop - start);
    MatchAt(line, tag, start, stop);
  }

  /** With only CR and LF after `k`, the second `\s+` gives back everything after `k`. */
  lemma {:induction false} BacktrackToLast(s: string, from: nat, n: nat, k: nat)
    requires from < k <= from + n <= |s| && k < |s|
    requires !IsLineBreak(s[k])
    requires forall j | k < j < |s| :: IsLineBreak(s[j])
    ensures Backtrack(s, from, n) == k - from
    decreases n
  {
    if from + n > k {
      BacktrackToLast(s, from, n - 1, k);
    }
  }

  /** With only CR and LF after `from + 1`, the second `\s+` cannot keep any character. */
  lemma {:induction false} BacktrackToNone(s: string, from: nat, n: nat)
    requires from + n <= |s|
    requires forall j | from < j < |s| :: IsLineBreak(s[j])
    ensures Backtrack(s, from, n) == 0
    decreases n
  {
    if n > 0 {
      BacktrackToNone(s, from, n - 1);
    }
  }

  /** Every character after position `k` is CR or LF. */
  predicate BreaksAfter(s: string, k: nat)
  {
    forall j | k < j < |s| :: IsLineBreak(s[j])
  }

  /** Whitespace up to the "(hex)" tag at `tag`: the first `\s+` ends at the tag. */
  lemma HeaderGap(line: string, tag: nat)
    requires 8 < tag && tag + 5 <= |line|
    requires line[tag..tag + 5] == HexTag && AllSpace(line[8..tag])
    ensures SpaceRun(line, 8) == tag - 8
  {
    assert line[tag] == line[tag..tag + 5][0];
    SpacesIn(line, 8, tag);
    SpaceRunOf(line, 8, tag - 8);
  }

  /** A whitespace tail whose last character other than CR or LF is at `k`: the second `\s+` ends just before `k`. */
  lemma BlankTailBacktrack(line: string, q: nat, k: nat)
    requires q < k < |line|
    requires AllSpace(line[q..])
    requires !IsLineBreak(line[k]) && BreaksAfter(line, k)
    ensures Backtrack(line, q, SpaceRun(line, q)) == k - q
  {
    SpacesIn(line, q, |line|);
    SpaceRunOf(line, q, |line| - q);
    BacktrackToLast(line, q, |line| - q, k);
  }

  /**
    A listing whose text after "(hex)" is all whitespace is still matched
    when a character other than CR or LF follows the first of that
    whitespace: the second `\s+` gives back the last such character `k`,
    and that one whitespace character is the vendor.
  */
  lemma BlankVendorMatched(line: string, tag: nat, k: nat)
    requires 8 < tag && tag + 6 <= k < |line|
    requires IsOuiText(line[..8]) && line[tag..tag + 5] == HexTag
    requires AllSpace(line[8..tag]) && AllSpace(line[tag + 5..])
    requires !IsLineBreak(line[k]) && BreaksAfter(line, k)
    ensures MatchLine(line) == Some(OuiMatch(line[..8], [line[k]]))
  {
    HeaderGap(line, tag);
    BlankTailBacktrack(line, tag + 5, k);
    TextRunOf(line, k, 1);
    MatchAt(line, tag, k, k + 1);
    assert line[k..k + 1] == [line[k]];
  }

  /**
    A listing whose text after "(hex)" is all whitespace and has nothing
    but CR and LF after the first of it is not matched.
  */
  lemma BlankVendorRejected(line: string, tag: nat)
    requires 8 < tag && tag + 5 <= |line|
    requires IsOuiText(line[..8]) && line[tag..tag + 5] == HexTag
    requires AllSpace(line[8..tag]) && BreaksAfter(line, tag + 5)
    ensures MatchLine(line).None?
  {
    HeaderGap(line, tag);
    BacktrackToNone(line, tag + 5, SpaceRun(line, tag + 5));
  }

  /** Two spaces before the line end: the engine gives one space back to the vendor. */
  lemma BlankVendorBacktracks(line: string)
    requires line == "00-00-00 (hex)  \n"
    ensures MatchLine(line) == Some(OuiMatch("00-00-00", " "))
  {
    assert |line| == 17 && line[8] == ' ' && line[14] == ' ' && line[15] == ' ' && line[16] == '\n';
    assert line[..8] == "00-00-00" && line[9..14] == HexTag;
    BlankVendorMatched(line, 9, 15);
  }

  /** One space before the line end: nothing is left for the vendor, and the line is skipped. */
  lemma BlankVendorSkipped(line: string)
    requires line == "00-00-00 (hex) \n"
    ensures MatchLine(line).None?
  {
    assert |line| == 16 && line[8] == ' ' && line[15] == '\n';
    assert line[..8] == "00-00-00" && line[9..14] == HexTag;
    BlankVendorRejected(line, 9);
  }

  // --------------------------------------------------------------- process

  /** `DUPLICATE_WARNING.format(oui, previous, vendor)`. */
  function DuplicateWarning(oui: string, previous: string, vendor: string): string
  {
    "[WARNING] Duplicate for \"" + oui + "\". Listed for \"" + vendor + "\" and \"" + previous + "\""
  }

  /** `if duplicate_delimiter:`: neither None nor the empty string. */
  predicate Concatenates(duplicateDelimiter: Option<string>)
  {
    duplicateDelimiter.Some? && duplicateDelimiter.value != []
  }

  /**
    The dictionary `oui_vendormapping`: its entries, its keys in insertion
    order (the order in which a dict yields them from Python 3.7 on), and the
    warnings written so far.
  */
  datatype Registry = Registry(vendors: map<string, string>, order: seq<string>, warnings: seq<string>)

  /** The keys in `order` are distinct, are exactly the keys of `vendors`, and are all OUI texts. */
  ghost predicate Valid(reg: Registry)
  {
    && (forall i, j | 0 <= i < j < |reg.order| :: reg.order[i] != reg.order[j])
    && (forall oui :: oui in reg.vendors <==> oui in reg.order)
    && (forall oui | oui in reg.vendors :: IsOuiText(oui))
  }

  /** What `process` does with one match (lines 20-29). */
  function Enter(reg: Registry, m: OuiMatch, duplicateDelimiter: Option<string>): Registry
  {
    if m.oui in reg.vendors then
      var warning := DuplicateWarning(m.oui, reg.vendors[m.oui], m.vendor);
      var vendor := if Concatenates(duplicateDelimiter)
        then reg.vendors[m.oui] + duplicateDelimiter.value + m.vendor
        else m.vendor;
      Registry(reg.vendors[m.oui := vendor], reg.order, reg.warnings + [warning])
    else
      Registry(reg.vendors[m.oui := m.vendor], reg.order + [m.oui], reg.warnings)
  }

  /** One pass of the loop body of `process` (lines 18-29). */
  function Absorb(reg: Registry, line: string, duplicateDelimiter: Option<string>): Registry
  {
    match MatchLine(line)
    case None => reg
    case Some(m) => Enter(reg, m, duplicateDelimiter)
  }

  /** The dictionary after the loop of `process` has read `lines`. */
  function Build(lines: seq<string>, duplicateDelimiter: Option<string>): Registry
    decreases |lines|
  {
    if lines == [] then Registry(map[], [], [])
    else Absorb(Build(lines[..|lines| - 1], duplicateDelimiter), lines[|lines| - 1], duplicateDelimiter)
  }

  /** The dictionary is always well formed. */
  lemma {:induction false} BuildValid(lines: seq<string>, duplicateDelimiter: Option<string>)
    ensures Valid(Build(lines, duplicateDelimiter))
    decreases |lines|
  {
    if lines != [] {
      BuildValid(lines[..|lines| - 1], duplicateDelimiter);
    }
  }

  /** The CSV rows of the dictionary after reading `lines`. */
  function CsvRows(lines: seq<string>, delimiter: string, duplicateDelimiter: Option<string>): (rows: seq<(string, string)>)
    ensures |rows| == |Build(lines, duplicateDelimiter).order|
  {
    var reg := Build(lines, duplicateDelimiter);
    BuildValid(lines, duplicateDelimiter);
    Rows(reg.order, reg.vendors, delimiter)
  }

  /** The rows `(oui.replace('-', delimiter), vendorname)` of the dictionary's items, in order. */
  function Rows(order: seq<string>, vendors: map<string, string>, delimiter: string): (rows: seq<(string, string)>)
    requires forall i | 0 <= i < |order| :: order[i] in vendors
    ensures |rows| == |order|
    ensures forall i | 0 <= i < |rows| :: rows[i] == (Replace(order[i], '-', delimiter), vendors[order[i]])
    decreases |order|
  {
    if order == [] then []
    else
      var oui := order[|order| - 1];
      Rows(order[..|order| - 1], vendors, delimiter) + [(Replace(oui, '-', delimiter), vendors[oui])]
  }

  /** Reading one more line absorbs it into the dictionary built so far. */
  lemma BuildStep(lines: seq<string>, i: nat, duplicateDelimiter: Option<string>)
    requires i < |lines|
    ensures Build(lines[..i + 1], duplicateDelimiter) == Absorb(Build(lines[..i], duplicateDelimiter), lines[i], duplicateDelimiter)
  {
    assert lines[..i + 1][..i] == lines[..i];
  }

  /**
    `process(oui_txt, oui_csv, delimiter, duplicate_delimiter)`: the CSV rows
    in the order of the dictionary and the warnings written to stderr.
  */
  method Process(lines: seq<string>, delimiter: string, duplicateDelimiter: Option<string>)
    returns (rows: seq<(string, string)>, warnings: seq<string>)
    ensures rows == CsvRows(lines, delimiter, duplicateDelimiter)
    ensures warnings == Build(lines, duplicateDelimiter).warnings
    ensures warnings == Warnings(Matches(lines), duplicateDelimiter)
  {
    var vendors: map<string, string> := map[];
    var order: seq<string> := [];
    warnings := [];
    var i := 0;
    while i < |lines|
      invariant 0 <= i <= |lines|
      invariant Registry(vendors, order, warnings) == Build(lines[..i], duplicateDelimiter)
    {
      BuildStep(lines, i, duplicateDelimiter);
      ghost var before := Registry(vendors, order, warnings);
      var found := MatchLine(lines[i]);
      if found.Some? {
        var oui := found.value.oui;
        var vendorname := found.value.vendor;
        if oui in vendors {
          warnings := warnings + [DuplicateWarning(oui, vendors[oui], vendorname)];
          if Concatenates(duplicateDelimiter) {
            vendorname := vendors[oui] + duplicateDelimiter.value + vendorname;
          }
        } else {
          order := order + [oui];
        }
        vendors := vendors[oui := vendorname];
        assert Registry(vendors, order, warnings) == Enter(before, found.value, duplicateDelimiter);
      }
      i := i + 1;
    }
    assert lines[..|lines|] == lines;
    BuildValid(lines, duplicateDelimiter);
    WarningsOfBuild(lines, duplicateDelimiter);
    rows := WriteRows(order, vendors, delimiter);
  }

  /** The loop over `oui_vendormapping.items()` that writes one CSV row per key. */
  method WriteRows(order: seq<string>, vendors: map<string, string>, delimiter: string)
    returns (rows: seq<(string, string)>)
    requires forall i | 0 <= i < |order| :: order[i] in vendors
    ensures rows == Rows(order, vendors, delimiter)
  {
    rows := [];
    var j := 0;
    while j < |order|
      invariant 0 <= j <= |order|
      invariant rows == Rows(order[..j], vendors, delimiter)
    {
      assert order[..j + 1][..j] == order[..j];
      rows := rows + [(Replace(order[j], '-', delimiter), vendors[order[j]])];
      j := j + 1;
    }
    assert order[..|order|] == order;
  }

  // ------------------------------------------------ what `process` promises

  function MatchOf(line: string): seq<OuiMatch>
  {
    match MatchLine(line)
    case None => []
    case Some(m) => [m]
  }

  /** The matches of the lines OUI_REGEX accepts, in input order. */
  function Matches(lines: seq<string>): seq<OuiMatch>
    decreases |lines|
  {
    if lines == [] then [] else Matches(lines[..|lines| - 1]) + MatchOf(lines[|lines| - 1])
  }

  /** The lines OUI_REGEX accepts, in input order. */
  function Accepted(lines: seq<string>): seq<string>
    decreases |lines|
  {
    if lines == [] then []
    else Accepted(lines[..|lines| - 1]) + (if MatchLine(lines[|lines| - 1]).Some? then [lines[|lines| - 1]] else [])
  }

  /** The OUIs of the matches, repeats included. */
  function Ouis(ms: seq<OuiMatch>): seq<string>
    decreases |ms|
  {
    if ms == [] then [] else Ouis(ms[..|ms| - 1]) + [ms[|ms| - 1].oui]
  }

  /** The vendor texts listed for `oui`, in order. */
  function Listings(ms: seq<OuiMatch>, oui: string): seq<string>
    decreases |ms|
  {
    if ms == [] then []
    else Listings(ms[..|ms| - 1], oui) + (if ms[|ms| - 1].oui == oui then [ms[|ms| - 1].vendor] else [])
  }

  /** How many matches repeat an OUI that an earlier match already had. */
  function Repeats(ms: seq<OuiMatch>): nat
    decreases |ms|
  {
    if ms == [] then 0
    else Repeats(ms[..|ms| - 1]) + (if ms[|ms| - 1].oui in Ouis(ms[..|ms| - 1]) then 1 else 0)
  }

  /** The position of the first occurrence of `x` in `s`. */
  function IndexOf(s: seq<string>, x: string): (k: nat)
    requires x in s
    ensures k < |s| && s[k] == x && x !in s[..k]
    decreases |s|
  {
    if s[0] == x then 0 else 1 + IndexOf(s[1..], x)
  }

  /** Appending keeps the first occurrence of what was there, and puts what was not at the end. */
  lemma {:induction false} IndexOfAppend(s: seq<string>, y: string, x: string)
    requires x in s + [y]
    ensures x in s ==> IndexOf(s + [y], x) == IndexOf(s, x)
    ensures x !in s ==> IndexOf(s + [y], x) == |s|
    decreases |s|
  {
    var t := s + [y];
    if s == [] {
      assert t == [y];
    } else if s[0] != x {
      assert t[1..] == s[1..] + [y];
      assert s == [s[0]] + s[1..];
      IndexOfAppend(s[1..], y, x);
    }
  }

  /** Lines that OUI_REGEX rejects leave the dictionary and the warnings unchanged. */
  lemma {:induction false} RejectedLinesIgnored(lines: seq<string>, duplicateDelimiter: Option<string>)
    ensures Build(lines, duplicateDelimiter) == Build(Accepted(lines), duplicateDelimiter)
    decreases |lines|
  {
    if lines != [] {
      var init, last := lines[..|lines| - 1], lines[|lines| - 1];
      RejectedLinesIgnored(init, duplicateDelimiter);
      assert Build(lines, duplicateDelimiter) == Absorb(Build(init, duplicateDelimiter), last, duplicateDelimiter);
      var acc := Accepted(lines);
      if MatchLine(last).Some? {
        assert acc == Accepted(init) + [last];
        assert acc[..|acc| - 1] == Accepted(init) && acc[|acc| - 1] == last;
      } else {
        assert acc == Accepted(init);
      }
    }
  }

  /** How the last line adds to the matches and what is counted over them. */
  lemma MatchesStep(lines: seq<string>, oui: string)
    requires lines != []
    ensures var init, last := lines[..|lines| - 1], lines[|lines| - 1];
      && (MatchLine(last).None? ==> Matches(lines) == Matches(init))
      && (MatchLine(last).Some? ==>
            var m, before := MatchLine(last).value, Matches(init);
            && Ouis(Matches(lines)) == Ouis(before) + [m.oui]
            && Listings(Matches(lines), oui) == Listings(before, oui) + (if m.oui == oui then [m.vendor] else [])
            && Repeats(Matches(lines)) == Repeats(before) + (if m.oui in Ouis(before) then 1 else 0)
            && |Matches(lines)| == |before| + 1)
  {
    var init, last := lines[..|lines| - 1], lines[|lines| - 1];
    var ms := Matches(lines);
    assert ms == Matches(init) + MatchOf(last);
    if MatchLine(last).Some? {
      assert ms[..|ms| - 1] == Matches(init);
    }
  }

  /** An OUI is a key exactly when it was listed, and the keys in order are the keys of the map. */
  lemma {:induction false} KeyListed(lines: seq<string>, duplicateDelimiter: Option<string>, oui: string)
    ensures var reg := Build(lines, duplicateDelimiter);
      && (oui in reg.vendors <==> oui in Ouis(Matches(lines)))
      && (oui in reg.vendors <==> oui in reg.order)
    decreases |lines|
  {
    if lines != [] {
      var init, last := lines[..|lines| - 1], lines[|lines| - 1];
      KeyListed(init, duplicateDelimiter, oui);
      MatchesStep(lines, oui);
      var prev := Build(init, duplicateDelimiter);
      assert Build(lines, duplicateDelimiter) == Absorb(prev, last, duplicateDelimiter);
      if MatchLine(last).Some? {
      }
    }
  }

  /**
    What the dictionary keeps for `oui`, given the vendor texts `listed`
    for it so far: it has an entry exactly when there was a listing, and
    the entry is the last listing's vendor or, with a non-empty duplicate
    delimiter, all of them in order joined by that delimiter.
  */
  predicate KeepsListings(reg: Registry, duplicateDelimiter: Option<string>, oui: string, listed: seq<string>)
  {
    && (oui in reg.vendors <==> listed != [])
    && (oui in reg.vendors ==> reg.vendors[oui] == Kept(listed, duplicateDelimiter))
  }

  /**
    The vendor text kept for the listings `listed` of one OUI: the last
    one, or, with a non-empty duplicate delimiter, all of them in order
    joined by that delimiter.
  */
  function Kept(listed: seq<string>, duplicateDelimiter: Option<string>): string
    requires listed != []
  {
    if Concatenates(duplicateDelimiter) then Join(listed, duplicateDelimiter.value)
    else listed[|listed| - 1]
  }

  /**
    The warnings `process` writes for the matches `ms`, defined over the
    matches alone: for each match whose OUI was listed before, one warning
    naming that OUI, the vendor text kept for it after the earlier
    listings, and the match's own vendor.
  */
  function Warnings(ms: seq<OuiMatch>, duplicateDelimiter: Option<string>): seq<string>
    decreases |ms|
  {
    if ms == [] then []
    else
      var init, m := ms[..|ms| - 1], ms[|ms| - 1];
      var before := Listings(init, m.oui);
      Warnings(init, duplicateDelimiter)
        + (if before != [] then [DuplicateWarning(m.oui, Kept(before, duplicateDelimiter), m.vendor)] else [])
  }

  /** Entering a match keeps what is kept for every OUI, counting the match's listing. */
  lemma EnterKeepsListings(reg: Registry, m: OuiMatch, duplicateDelimiter: Option<string>, oui: string, before: seq<string>)
    requires KeepsListings(reg, duplicateDelimiter, oui, before)
    ensures KeepsListings(Enter(reg, m, duplicateDelimiter), duplicateDelimiter, oui,
      before + (if m.oui == oui then [m.vendor] else []))
  {
    var after := Enter(reg, m, duplicateDelimiter);
    if m.oui == oui {
      var listed := before + [m.vendor];
      if Concatenates(duplicateDelimiter) {
        var d := duplicateDelimiter.value;
        if before == [] {
          assert listed == [m.vendor];
        } else {
          JoinSnoc(before, m.vendor, d);
          assert after.vendors[oui] == reg.vendors[oui] + d + m.vendor;
        }
      }
    } else {
      assert before + [] == before;
    }
  }

  /** The vendor text kept for an OUI, in terms of the listings of that OUI. */
  lemma {:induction false} VendorOfOui(lines: seq<string>, duplicateDelimiter: Option<string>, oui: string)
    ensures KeepsListings(Build(lines, duplicateDelimiter), duplicateDelimiter, oui, Listings(Matches(lines), oui))
    decreases |lines|
  {
    if lines != [] {
      var init, last := lines[..|lines| - 1], lines[|lines| - 1];
      VendorOfOui(init, duplicateDelimiter, oui);
      MatchesStep(lines, oui);
      var prev := Build(init, duplicateDelimiter);
      assert Build(lines, duplicateDelimiter) == Absorb(prev, last, duplicateDelimiter);
      if MatchLine(last).Some? {
        EnterKeepsListings(prev, MatchLine(last).value, duplicateDelimiter, oui, Listings(Matches(init), oui));
      }
    }
  }

  /** Entering a match adds the warning the earlier listings of its OUI call for, and no other. */
  lemma EnterWarns(reg: Registry, m: OuiMatch, duplicateDelimiter: Option<string>, before: seq<string>)
    requires KeepsListings(reg, duplicateDelimiter, m.oui, before)
    ensures Enter(reg, m, duplicateDelimiter).warnings == reg.warnings
      + (if before != [] then [DuplicateWarning(m.oui, Kept(before, duplicateDelimiter), m.vendor)] else [])
  {
  }

  /** One more match adds at most its own warning to the reference warnings. */
  lemma WarningsSnoc(ms: seq<OuiMatch>, m: OuiMatch, duplicateDelimiter: Option<string>)
    ensures Warnings(ms + [m], duplicateDelimiter) == Warnings(ms, duplicateDelimiter)
      + (if Listings(ms, m.oui) != [] then [DuplicateWarning(m.oui, Kept(Listings(ms, m.oui), duplicateDelimiter), m.vendor)] else [])
  {
    assert (ms + [m])[..|ms|] == ms;
  }

  /** The dictionary writes exactly the warnings that the matches call for, in order. */
  lemma {:induction false} WarningsOfBuild(lines: seq<string>, duplicateDelimiter: Option<string>)
    ensures Build(lines, duplicateDelimiter).warnings == Warnings(Matches(lines), duplicateDelimiter)
    decreases |lines|
  {
    if lines != [] {
      var init, last := lines[..|lines| - 1], lines[|lines| - 1];
      WarningsOfBuild(init, duplicateDelimiter);
      var prev := Build(init, duplicateDelimiter);
      assert Build(lines, duplicateDelimiter) == Absorb(prev, last, duplicateDelimiter);
      assert Matches(lines) == Matches(init) + MatchOf(last);
      if MatchLine(last).Some? {
        var m := MatchLine(last).value;
        assert Matches(lines) == Matches(init) + [m];
        assert Build(lines, duplicateDelimiter) == Enter(prev, m, duplicateDelimiter);
        VendorOfOui(init, duplicateDelimiter, m.oui);
        EnterWarns(prev, m, duplicateDelimiter, Listings(Matches(init), m.oui));
        WarningsSnoc(Matches(init), m, duplicateDelimiter);
      } else {
        assert Matches(lines) == Matches(init);
      }
    }
  }

  /** An OUI has listings exactly when it is among the matched OUIs. */
  lemma {:induction false} ListingsIffListed(ms: seq<OuiMatch>, oui: string)
    ensures Listings(ms, oui) != [] <==> oui in Ouis(ms)
    decreases |ms|
  {
    if ms != [] {
      ListingsIffListed(ms[..|ms| - 1], oui);
    }
  }

  /** The reference warnings are one per repeated listing. */
  lemma {:induction false} WarningsCount(ms: seq<OuiMatch>, duplicateDelimiter: Option<string>)
    ensures |Warnings(ms, duplicateDelimiter)| == Repeats(ms)
    decreases |ms|
  {
    if ms != [] {
      var init, m := ms[..|ms| - 1], ms[|ms| - 1];
      WarningsCount(init, duplicateDelimiter);
      ListingsIffListed(init, m.oui);
    }
  }

  /**
    `order` holds exactly the distinct elements of `ouis`, each once, in
    the order of their first occurrences in `ouis`.
  */
  ghost predicate FirstListed(order: seq<string>, ouis: seq<string>)
  {
    && (forall oui :: oui in order <==> oui in ouis)
    && (forall i, j | 0 <= i < j < |order| :: IndexOf(ouis, order[i]) < IndexOf(ouis, order[j]))
  }

  /** Listing one more OUI moves no first listing of an OUI already listed. */
  lemma FirstIndexesKept(order: seq<string>, ouis: seq<string>, y: string)
    requires forall oui :: oui in order ==> oui in ouis
    ensures forall i | 0 <= i < |order| :: order[i] in ouis && IndexOf(ouis + [y], order[i]) == IndexOf(ouis, order[i])
  {
    forall i | 0 <= i < |order| ensures order[i] in ouis && IndexOf(ouis + [y], order[i]) == IndexOf(ouis, order[i]) {
      assert order[i] in order;
      IndexOfAppend(ouis, y, order[i]);
    }
  }

  /** Listing one more OUI keeps the order of first listings if the OUI is added exactly when it is new. */
  lemma FirstListedAppend(order: seq<string>, ouis: seq<string>, y: string)
    requires FirstListed(order, ouis)
    ensures FirstListed(if y in ouis then order else order + [y], ouis + [y])
  {
    var after := ouis + [y];
    FirstIndexesKept(order, ouis, y);
    if y !in ouis {
      IndexOfAppend(ouis, y, y);
      var longer := order + [y];
      forall i, j | 0 <= i < j < |longer|
        ensures IndexOf(after, longer[i]) < IndexOf(after, longer[j])
      {
        assert longer[i] == order[i];
        if j < |order| {
          assert longer[j] == order[j];
        }
      }
    }
  }

  /**
    The keys of the dictionary are exactly the OUIs listed, and they come in
    the order in which each was first listed.
  */
  lemma {:induction false} FirstAppearanceOrder(lines: seq<string>, duplicateDelimiter: Option<string>)
    ensures FirstListed(Build(lines, duplicateDelimiter).order, Ouis(Matches(lines)))
    decreases |lines|
  {
    if lines != [] {
      var init, last := lines[..|lines| - 1], lines[|lines| - 1];
      FirstAppearanceOrder(init, duplicateDelimiter);
      MatchesStep(lines, "");
      var prev := Build(init, duplicateDelimiter);
      assert Build(lines, duplicateDelimiter) == Absorb(prev, last, duplicateDelimiter);
      if MatchLine(last).Some? {
        var m := MatchLine(last).value;
        KeyListed(init, duplicateDelimiter, m.oui);
        FirstListedAppend(prev.order, Ouis(Matches(init)), m.oui);
      }
    }
  }

  /**
    One warning is written for each listing of an OUI that was listed
    before; so every listing yields either a warning or a new key.
  */
  lemma {:induction false} WarningPerRepeat(lines: seq<string>, duplicateDelimiter: Option<string>)
    ensures var reg := Build(lines, duplicateDelimiter);
      && |reg.warnings| == Repeats(Matches(lines))
      && |reg.warnings| + |reg.order| == |Matches(lines)|
    decreases |lines|
  {
    if lines != [] {
      var init, last := lines[..|lines| - 1], lines[|lines| - 1];
      WarningPerRepeat(init, duplicateDelimiter);
      MatchesStep(lines, "");
      var prev := Build(init, duplicateDelimiter);
      assert Build(lines, duplicateDelimiter) == Absorb(prev, last, duplicateDelimiter);
      if MatchLine(last).Some? {
        var m := MatchLine(last).value;
        KeyListed(init, duplicateDelimiter, m.oui);
      }
    }
  }

  /**
    The CSV output: one row per distinct listed OUI, in first-listing order;
    its first field is the OUI with each '-' replaced by `delimiter` (left
    as it is for "-"), its second the vendor text kept for that OUI.
  */
  lemma RowsOfProcess(lines: seq<string>, delimiter: string, duplicateDelimiter: Option<string>)
    ensures var reg := Build(lines, duplicateDelimiter);
      var rows := CsvRows(lines, delimiter, duplicateDelimiter);
      && |rows| == |reg.order|
      && (forall i | 0 <= i < |rows| ::
            && IsOuiText(reg.order[i]) && reg.order[i] in reg.vendors
            && rows[i].0 == reg.order[i][..2] + delimiter + reg.order[i][3..5] + delimiter + reg.order[i][6..]
            && rows[i].1 == reg.vendors[reg.order[i]])
      && (delimiter == "-" ==> forall i | 0 <= i < |rows| :: rows[i].0 == reg.order[i])
  {
    var reg := Build(lines, duplicateDelimiter);
    BuildValid(lines, duplicateDelimiter);
    var rows := CsvRows(lines, delimiter, duplicateDelimiter);
    assert rows == Rows(reg.order, reg.vendors, delimiter);
    forall i | 0 <= i < |rows|
      ensures IsOuiText(reg.order[i]) && reg.order[i] in reg.vendors
      ensures rows[i].0 == reg.order[i][..2] + delimiter + reg.order[i][3..5] + delimiter + reg.order[i][6..]
      ensures rows[i].1 == reg.vendors[reg.order[i]]
      ensures delimiter == "-" ==> rows[i].0 == reg.order[i]
    {
      var oui := reg.order[i];
      assert oui in reg.order;
      assert oui in reg.vendors && IsOuiText(oui);
      assert rows[i] == (Replace(oui, '-', delimiter), reg.vendors[oui]);
      OuiWithDelimiter(oui, delimiter);
    }
  }

  /** How `oui.replace('-', delimiter)` rewrites an OUI text. */
  lemma OuiWithDelimiter(oui: string, delimiter: string)
    requires IsOuiText(oui)
    ensures Replace(oui, '-', delimiter) == oui[..2] + delimiter + oui[3..5] + delimiter + oui[6..]
    ensures delimiter == "-" ==> Replace(oui, '-', delimiter) == oui
  {
    assert oui == oui[..2] + "-" + oui[3..5] + "-" + oui[6..];
    ReplaceAppend(oui[..2] + "-" + oui[3..5] + "-", oui[6..], '-', delimiter);
    ReplaceAppend(oui[..2] + "-" + oui[3..5], "-", '-', delimiter);
    ReplaceAppend(oui[..2] + "-", oui[3..5], '-', delimiter);
    ReplaceAppend(oui[..2], "-", '-', delimiter);
    ReplaceAbsent(oui[..2], '-', delimiter);
    ReplaceAbsent(oui[3..5], '-', delimiter);
    ReplaceAbsent(oui[6..], '-', delimiter);
    assert Replace("-", '-', delimiter) == delimiter;
    if delimiter == "-" {
      ReplaceBySelf(oui, '-');
    }
  }
}
