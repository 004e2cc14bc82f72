/** The rotamer-library extractor (`rotLibWriter`): find one residue type's entry in a rotamer
    library, keep the rotamers whose indices are listed, and write the entry back out with the new
    rotamer count.

    The library file is given as its sequence of lines; reading past the last line yields null
    (`None`), as `BufferedReader.readLine` does.  Splitting an entry's first line into the residue
    name, the number of dihedrals and the number of rotamers (`StringParsing.getToken` and
    `new Integer`) is a parameter, `None` when the line does not parse.  The reader turns every
    exception into a `RuntimeException`; the error tag records which message it carries: a failed
    read, or a residue that no entry names. */
module RotLibWriter {
  import opened Wrappers
  import opened Strings

  datatype Error = ReadError | TemplateNotFound | HeaderTooShort

  /** An entry's first line, parsed. */
  datatype EntryHeader = EntryHeader(aaName: string, numDihedrals: int, numRotamers: int)

  /** What `readRotLib` collects: the entry's header lines and the kept rotamer lines. */
  datatype Entry = Entry(header: seq<Option<string>>, dihedrals: seq<Option<string>>)

  /** `readLine()` at line index i: null past the end. */
  function ReadAt(lines: seq<string>, i: nat): (r: Option<string>)
    ensures r.Some? <==> i < |lines|
    ensures r.Some? ==> r.value == lines[i]
  {
    if i < |lines| then Some(lines[i]) else None
  }

  /** A comment line starts with '!'. */
  predicate IsComment(line: string) {
    |line| > 0 && line[0] == '!'
  }

  function ClampNonNegative(n: int): nat {
    if n < 0 then 0 else n
  }

  /** The leading comment loop: the index of the first line that is not a comment.  Testing the
      first character of a missing or empty line throws. */
  function SkipLeadingComments(lines: seq<string>, i: nat): (r: Result<nat, Error>)
    ensures r.Success? ==>
      && i <= r.value < |lines| && |lines[r.value]| > 0 && !IsComment(lines[r.value])
      && (forall j | i <= j < r.value :: IsComment(lines[j]))
    ensures r.Failure? ==> r == Failure(ReadError)
    decreases |lines| - i
  {
    if i >= |lines| || |lines[i]| == 0 then Failure(ReadError)
    else if IsComment(lines[i]) then SkipLeadingComments(lines, i + 1)
    else Success(i)
  }

  /** The rotamer loop of a matching entry, from rotamer q on with `i` rotamers already kept:
      rotamer line q is kept when it is the next listed index. */
  function SelectRotamers(lines: seq<string>, start: nat, numRotamers: nat, rotLib: seq<int>, q: nat, i: nat)
    : (r: seq<Option<string>>)
    requires i <= |rotLib|
    ensures |r| <= |rotLib| - i
    ensures q >= numRotamers ==> |r| == 0
    ensures q < numRotamers ==> |r| <= numRotamers - q
    ensures forall j | i <= j < i + |r| :: q <= rotLib[j] < numRotamers && r[j - i] == ReadAt(lines, start + rotLib[j])
    decreases numRotamers - q
  {
    if q >= numRotamers then []
    else if i < |rotLib| && rotLib[i] == q then
      [ReadAt(lines, start + q)] + SelectRotamers(lines, start, numRotamers, rotLib, q + 1, i + 1)
    else SelectRotamers(lines, start, numRotamers, rotLib, q + 1, i)
  }

  predicate StrictlyIncreasing(s: seq<int>) {
    forall a, b | 0 <= a < b < |s| :: s[a] < s[b]
  }

  /** For a strictly increasing list of rotamer indices within range, exactly the listed rotamers
      are kept, in order. */
  lemma {:induction false} SelectAllListed(lines: seq<string>, start: nat, numRotamers: nat, rotLib: seq<int>,
                                           q: nat, i: nat)
    requires i <= |rotLib| && StrictlyIncreasing(rotLib)
    requires forall k | i <= k < |rotLib| :: q <= rotLib[k] < numRotamers
    ensures |SelectRotamers(lines, start, numRotamers, rotLib, q, i)| == |rotLib| - i
    decreases numRotamers - q
  {
    if q < numRotamers {
      if i < |rotLib| && rotLib[i] == q {
        SelectAllListed(lines, start, numRotamers, rotLib, q + 1, i + 1);
      } else {
        if i < |rotLib| {
          assert q < rotLib[i];
          forall k | i <= k < |rotLib| ensures q + 1 <= rotLib[k] {
            if k > i { assert rotLib[i] < rotLib[k]; }
          }
        }
        SelectAllListed(lines, start, numRotamers, rotLib, q + 1, i);
      }
    }
  }

  /** The entry loop from line index `idx` (the current line) on. */
  function ScanEntries(lines: seq<string>, idx: nat, resName: string, rotLib: seq<int>,
                       parse: string -> Option<EntryHeader>): Result<Entry, Error>
    decreases |lines| - idx
  {
    if idx >= |lines| then Failure(TemplateNotFound)
    else
      var cur := lines[idx];
      if |cur| == 0 then Failure(ReadError)
      else if IsComment(cur) then ScanEntries(lines, idx + 1, resName, rotLib, parse)
      else match parse(cur)
        case None => Failure(ReadError)
        case Some(h) =>
          var nd := ClampNonNegative(h.numDihedrals);
          var nr := ClampNonNegative(h.numRotamers);
          if EqualsIgnoreCase(resName, h.aaName) then
            Success(EntryAt(lines, idx, nd, nr, rotLib))
          else ScanEntries(lines, idx + nd + nr + 1, resName, rotLib, parse)
  }

  /** The entry read from a matching first line at `idx`: that line and the `nd` lines after it
      form the header, and the next `nr` lines are the rotamers to choose from. */
  function EntryAt(lines: seq<string>, idx: nat, nd: nat, nr: nat, rotLib: seq<int>): (r: Entry)
    ensures |r.header| == nd + 1
    ensures forall k | 0 <= k < |r.header| :: r.header[k] == ReadAt(lines, idx + k)
    ensures |r.dihedrals| <= |rotLib| && |r.dihedrals| <= nr
    ensures forall k | 0 <= k < |r.dihedrals| :: 0 <= rotLib[k] < nr && r.dihedrals[k] == ReadAt(lines, idx + 1 + nd + rotLib[k])
  {
    var header := seq(nd + 1, k requires 0 <= k <= nd => ReadAt(lines, idx + k));
    var kept := SelectRotamers(lines, idx + 1 + nd, nr, rotLib, 0, 0);
    Entry(header, kept)
  }

  /** Line j is an entry's first line naming the residue (up to case), and `e` is that entry. */
  predicate FoundAt(lines: seq<string>, j: nat, resName: string, rotLib: seq<int>,
                    parse: string -> Option<EntryHeader>, e: Entry)
  {
    && j < |lines| && |lines[j]| > 0 && !IsComment(lines[j])
    && parse(lines[j]).Some? && EqualsIgnoreCase(resName, parse(lines[j]).value.aaName)
    && e == EntryAt(lines, j, ClampNonNegative(parse(lines[j]).value.numDihedrals),
                    ClampNonNegative(parse(lines[j]).value.numRotamers), rotLib)
  }

  /** What the entry loop returns is the entry of a matching first line at or after `idx`. */
  lemma {:induction false} ScanFindsEntry(lines: seq<string>, idx: nat, resName: string, rotLib: seq<int>,
                                          parse: string -> Option<EntryHeader>)
    ensures var r := ScanEntries(lines, idx, resName, rotLib, parse);
      r.Success? ==> exists j | idx <= j < |lines| :: FoundAt(lines, j, resName, rotLib, parse, r.value)
    decreases |lines| - idx
  {
    if idx < |lines| && |lines[idx]| > 0 {
      if IsComment(lines[idx]) {
        ScanFindsEntry(lines, idx + 1, resName, rotLib, parse);
      } else if parse(lines[idx]).Some? {
        var h := parse(lines[idx]).value;
        var nd := ClampNonNegative(h.numDihedrals);
        var nr := ClampNonNegative(h.numRotamers);
        if EqualsIgnoreCase(resName, h.aaName) {
          assert FoundAt(lines, idx, resName, rotLib, parse, EntryAt(lines, idx, nd, nr, rotLib));
        } else {
          ScanFindsEntry(lines, idx + nd + nr + 1, resName, rotLib, parse);
        }
      }
    }
  }

  /** `readRotLib(file, resName)`: skip the leading comments, skip the line with the number of
      residues, then look for the residue's entry. */
  function ReadRotLib(lines: seq<string>, resName: string, rotLib: seq<int>,
                      parse: string -> Option<EntryHeader>): (r: Result<Entry, Error>)
    ensures r.Success? ==> SkipLeadingComments(lines, 0).Success?
    ensures r.Success? ==>
      exists j | SkipLeadingComments(lines, 0).value < j < |lines| :: FoundAt(lines, j, resName, rotLib, parse, r.value)
    ensures r.Success? ==> r.value.header[0].Some?
  {
    var first :- SkipLeadingComments(lines, 0);
    var r := ScanEntries(lines, first + 1, resName, rotLib, parse);
    assert r.Success? ==> exists j | first < j < |lines| :: FoundAt(lines, j, resName, rotLib, parse, r.value) by {
      ScanFindsEntry(lines, first + 1, resName, rotLib, parse);
    }
    r
  }

  /** A residue named by no entry line is an error. */
  lemma {:induction false} NeverFoundIsError(lines: seq<string>, idx: nat, resName: string, rotLib: seq<int>,
                                             parse: string -> Option<EntryHeader>)
    requires forall j | idx <= j < |lines| ::
      !(parse(lines[j]).Some? && EqualsIgnoreCase(resName, parse(lines[j]).value.aaName))
    ensures ScanEntries(lines, idx, resName, rotLib, parse).Failure?
    decreases |lines| - idx
  {
    if idx < |lines| && |lines[idx]| > 0 {
      if IsComment(lines[idx]) {
        NeverFoundIsError(lines, idx + 1, resName, rotLib, parse);
      } else if parse(lines[idx]).Some? {
        var h := parse(lines[idx]).value;
        NeverFoundIsError(lines, idx + ClampNonNegative(h.numDihedrals) + ClampNonNegative(h.numRotamers) + 1,
                          resName, rotLib, parse);
      }
    }
  }

  /** A comment line between entries is passed over: the entry loop goes on at the next line. */
  lemma CommentSkipped(lines: seq<string>, idx: nat, resName: string, rotLib: seq<int>,
                       parse: string -> Option<EntryHeader>)
    requires idx < |lines| && IsComment(lines[idx])
    ensures ScanEntries(lines, idx, resName, rotLib, parse) == ScanEntries(lines, idx + 1, resName, rotLib, parse)
  {
  }

  /** An entry for another residue is skipped whole: its dihedral and rotamer lines are never
      taken for entry lines, and a negative rotamer count skips no rotamer lines. */
  lemma OtherEntrySkipped(lines: seq<string>, idx: nat, resName: string, rotLib: seq<int>,
                          parse: string -> Option<EntryHeader>)
    requires idx < |lines| && |lines[idx]| > 0 && !IsComment(lines[idx])
    requires parse(lines[idx]).Some? && !EqualsIgnoreCase(resName, parse(lines[idx]).value.aaName)
    ensures var h := parse(lines[idx]).value;
      ScanEntries(lines, idx, resName, rotLib, parse)
      == ScanEntries(lines, idx + 1 + ClampNonNegative(h.numDihedrals) + ClampNonNegative(h.numRotamers),
                     resName, rotLib, parse)
    ensures parse(lines[idx]).value.numRotamers < 0 ==>
      ScanEntries(lines, idx, resName, rotLib, parse)
      == ScanEntries(lines, idx + 1 + ClampNonNegative(parse(lines[idx]).value.numDihedrals), resName, rotLib, parse)
  {
  }

  /** Comment lines put in front of the library change nothing. */
  lemma LeadingCommentsIgnored(comments: seq<string>, lines: seq<string>, resName: string, rotLib: seq<int>,
                               parse: string -> Option<EntryHeader>)
    requires forall k | 0 <= k < |comments| :: IsComment(comments[k])
    ensures ReadRotLib(comments + lines, resName, rotLib, parse).Success? <==>
            ReadRotLib(lines, resName, rotLib, parse).Success?
    ensures ReadRotLib(lines, resName, rotLib, parse).Success? ==>
            ReadRotLib(comments + lines, resName, rotLib, parse) == ReadRotLib(lines, resName, rotLib, parse)
  {
    var all := comments + lines;
    SkipShift(comments, lines, 0);
    assert SkipLeadingComments(all, 0) == SkipLeadingComments(all, |comments|) by {
      SkipOverComments(all, 0, |comments|);
    }
    var s := SkipLeadingComments(lines, 0);
    if s.Success? {
      ScanShift(comments, lines, s.value + 1, resName, rotLib, parse);
    }
  }

  lemma {:induction false} SkipOverComments(lines: seq<string>, i: nat, n: nat)
    requires i <= n <= |lines|
    requires forall k | i <= k < n :: IsComment(lines[k])
    ensures SkipLeadingComments(lines, i) == SkipLeadingComments(lines, n)
    decreases n - i
  {
    if i < n {
      SkipOverComments(lines, i + 1, n);
    }
  }

  lemma {:induction false} SkipShift(comments: seq<string>, lines: seq<string>, i: nat)
    ensures var r := SkipLeadingComments(comments + lines, |comments| + i);
      var s := SkipLeadingComments(lines, i);
      && (r.Success? <==> s.Success?)
      && (s.Success? ==> r.value == |comments| + s.value)
    decreases |lines| - i
  {
    var all := comments + lines;
    if i < |lines| {
      assert all[|comments| + i] == lines[i];
      if |lines[i]| > 0 && IsComment(lines[i]) {
        SkipShift(comments, lines, i + 1);
      }
    }
  }

  lemma {:induction false} ReadAtShift(comments: seq<string>, lines: seq<string>, i: nat)
    ensures ReadAt(comments + lines, |comments| + i) == ReadAt(lines, i)
  {
    if i < |lines| {
      assert (comments + lines)[|comments| + i] == lines[i];
    }
  }

  lemma EntryAtShift(comments: seq<string>, lines: seq<string>, idx: nat, nd: nat, nr: nat, rotLib: seq<int>)
    ensures EntryAt(comments + lines, |comments| + idx, nd, nr, rotLib) == EntryAt(lines, idx, nd, nr, rotLib)
  {
    var a := EntryAt(comments + lines, |comments| + idx, nd, nr, rotLib);
    var b := EntryAt(lines, idx, nd, nr, rotLib);
    forall k | 0 <= k < |a.header| ensures a.header[k] == b.header[k] {
      ReadAtShift(comments, lines, idx + k);
    }
    SelectShift(comments, lines, idx + 1 + nd, nr, rotLib, 0, 0);
  }

  lemma {:induction false} SelectShift(comments: seq<string>, lines: seq<string>, start: nat, numRotamers: nat,
                                       rotLib: seq<int>, q: nat, i: nat)
    requires i <= |rotLib|
    ensures SelectRotamers(comments + lines, |comments| + start, numRotamers, rotLib, q, i)
         == SelectRotamers(lines, start, numRotamers, rotLib, q, i)
    decreases numRotamers - q
  {
    if q < numRotamers {
      ReadAtShift(comments, lines, start + q);
      if i < |rotLib| && rotLib[i] == q {
        SelectShift(comments, lines, start, numRotamers, rotLib, q + 1, i + 1);
      } else {
        SelectShift(comments, lines, start, numRotamers, rotLib, q + 1, i);
      }
    }
  }

  lemma {:induction false} ScanShift(comments: seq<string>, lines: seq<string>, idx: nat, resName: string,
                                     rotLib: seq<int>, parse: string -> Option<EntryHeader>)
    ensures ScanEntries(comments + lines, |comments| + idx, resName, rotLib, parse)
         == ScanEntries(lines, idx, resName, rotLib, parse)
    decreases |lines| - idx
  {
    var all := comments + lines;
    if idx < |lines| {
      assert all[|comments| + idx] == lines[idx];
      var cur := lines[idx];
      if |cur| > 0 {
        if IsComment(cur) {
          ScanShift(comments, lines, idx + 1, resName, rotLib, parse);
        } else if parse(cur).Some? {
          var h := parse(cur).value;
          var nd := ClampNonNegative(h.numDihedrals);
          var nr := ClampNonNegative(h.numRotamers);
          if EqualsIgnoreCase(resName, h.aaName) {
            EntryAtShift(comments, lines, idx, nd, nr, rotLib);
          } else {
            ScanShift(comments, lines, idx + nd + nr + 1, resName, rotLib, parse);
          }
        }
      }
    }
  }

  /** `println` of a possibly null line. */
  function LineText(line: Option<string>): string {
    if line.Some? then line.value else "null"
  }

  /** The first header line cut to six characters and followed by the number of kept rotamers. */
  function CountLine(first: string, count: nat): (r: string)
    requires |first| >= 6
    ensures |r| > 6 && r[..6] == first[..6]
    ensures forall i | 6 <= i < |r| :: '0' <= r[i] <= '9'
    ensures DigitsValue(r[6..]) == count
    ensures r[6..] == NatToString(count)
  {
    var digits := NatToString(count);
    var r := first[..6] + digits;
    assert r[6..] == digits;
    NatToStringRoundTrip(count);
    r
  }

  /** The printed text of every line of `lines`, a null one printing as "null". */
  function Printed(lines: seq<Option<string>>): (r: seq<string>)
    ensures |r| == |lines|
    ensures forall k | 0 <= k < |lines| :: r[k] == LineText(lines[k])
  {
    seq(|lines|, k requires 0 <= k < |lines| => LineText(lines[k]))
  }

  /** `writeRotLib()`: the first header line cut to six characters and followed by the number of
      kept rotamers, then the other header lines, then the kept rotamer lines.  A first line
      shorter than six characters cannot be cut. */
  function WriteRotLib(e: Entry, rotLib: seq<int>): (r: Result<seq<string>, Error>)
    requires |e.header| > 0 && e.header[0].Some?
    ensures r.Failure? <==> |e.header[0].value| < 6
    ensures r.Failure? ==> r.error == HeaderTooShort
    ensures r.Success? ==>
      && |r.value| == |e.header| + |e.dihedrals|
      && |r.value[0]| > 6 && r.value[0][..6] == e.header[0].value[..6]
      && (forall i | 6 <= i < |r.value[0]| :: '0' <= r.value[0][i] <= '9')
      && DigitsValue(r.value[0][6..]) == |rotLib|
      && r.value[0][6..] == NatToString(|rotLib|)
      && r.value[1..|e.header|] == Printed(e.header[1..])
      && r.value[|e.header|..] == Printed(e.dihedrals)
  {
    var first := e.header[0].value;
    if |first| < 6 then Failure(HeaderTooShort)
    else
      var line := CountLine(first, |rotLib|);
      var rest := Printed(e.header[1..]);
      var kept := Printed(e.dihedrals);
      var out := [line] + rest + kept;
      assert out[0] == line;
      assert out[1..|e.header|] == rest;
      assert out[|e.header|..] == kept;
      Success(out)
  }

  /** `writeRotLibFile` without the files: read the entry and write it back out. */
  function ExtractRotLib(lines: seq<string>, resName: string, rotLib: seq<int>,
                         parse: string -> Option<EntryHeader>): (r: Result<seq<string>, Error>)
    ensures r.Success? <==>
      ReadRotLib(lines, resName, rotLib, parse).Success?
      && |ReadRotLib(lines, resName, rotLib, parse).value.header[0].value| >= 6
    ensures r.Success? ==>
      var e := ReadRotLib(lines, resName, rotLib, parse).value;
      && |r.value| == |e.header| + |e.dihedrals|
      && |r.value[0]| > 6 && r.value[0][..6] == e.header[0].value[..6]
      && (forall i | 6 <= i < |r.value[0]| :: '0' <= r.value[0][i] <= '9')
      && DigitsValue(r.value[0][6..]) == |rotLib|
      && r.value[0][6..] == NatToString(|rotLib|)
      && r.value[1..|e.header|] == Printed(e.header[1..])
      && r.value[|e.header|..] == Printed(e.dihedrals)
  {
    var e :- ReadRotLib(lines, resName, rotLib, parse);
    WriteRotLib(e, rotLib)
  }
}
