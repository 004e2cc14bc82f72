/** Path roots and line parsing (`FileTools`): resolving a path against a resource root, making a
    path relative to a resource or file root again, and splitting text into lines the way
    `BufferedReader.readLine` does.

    Opening, reading and extracting files and classpath resources are not part of this model.  A
    file root is given by its absolute path (`File.getAbsolutePath` is not modelled); a null root
    is `None`. */
module FileTools {
  import opened Wrappers
  import opened Strings

  datatype Error = NotAbsolute | NoRoot | NullRoot | NotUnderRoot | IndexOutOfBounds

  // ---------------------------------------------------------------------------
  // Resource roots.

  /** A `ResourcePathRoot`: the root path, or none for the no-argument constructor. */
  datatype ResourceRoot = ResourceRoot(rootPath: Option<string>)

  /** `new ResourcePathRoot(rootPath)`: the root must be absolute. */
  function NewResourceRoot(rootPath: string): (r: Result<ResourceRoot, Error>)
    ensures r.Failure? <==> !StartsWith(rootPath, "/")
    ensures r.Failure? ==> r.error == NotAbsolute
    ensures r.Success? ==> r.value.rootPath == Some(rootPath)
  {
    if !StartsWith(rootPath, "/") then Failure(NotAbsolute) else Success(ResourceRoot(Some(rootPath)))
  }

  /** `resolve(path)`: an absolute path is already resolved; a relative one is put under the root,
      and needs one. */
  function Resolve(root: ResourceRoot, path: string): (r: Result<string, Error>)
    ensures StartsWith(path, "/") ==> r == Success(path)
    ensures !StartsWith(path, "/") && root.rootPath.None? ==> r == Failure(NoRoot)
    ensures !StartsWith(path, "/") && root.rootPath.Some? ==>
      && r.Success? && |r.value| == |root.rootPath.value| + 1 + |path|
      && StartsWith(r.value, root.rootPath.value)
      && r.value[|root.rootPath.value|] == '/' && r.value[|root.rootPath.value| + 1..] == path
  {
    if StartsWith(path, "/") then Success(path)
    else if root.rootPath.None? then Failure(NoRoot)
    else Success(root.rootPath.value + "/" + path)
  }

  /** The shared `makeRelative` of both roots: the path must begin with the root, and the root
      and the one character after it are cut off; a path equal to the root has no such character. */
  function StripRoot(root: string, path: string): (r: Result<string, Error>)
    ensures !StartsWith(path, root) <==> r == Failure(NotUnderRoot)
    ensures StartsWith(path, root) && |path| == |root| <==> r == Failure(IndexOutOfBounds)
    ensures r.Success? <==> StartsWith(path, root) && |path| > |root|
    ensures r.Success? ==> path == root + [path[|root|]] + r.value
  {
    if !StartsWith(path, root) then Failure(NotUnderRoot)
    else if |path| < |root| + 1 then Failure(IndexOutOfBounds)
    else
      assert path == path[..|root|] + [path[|root|]] + path[|root| + 1..];
      Success(path[|root| + 1..])
  }

  /** `ResourcePathRoot.makeRelative(path)`; a null root makes the prefix test throw. */
  function MakeRelative(root: ResourceRoot, path: string): (r: Result<string, Error>)
    ensures root.rootPath.None? ==> r == Failure(NullRoot)
    ensures root.rootPath.Some? ==> r == StripRoot(root.rootPath.value, path)
  {
    if root.rootPath.None? then Failure(NullRoot) else StripRoot(root.rootPath.value, path)
  }

  /** Round trip: a relative path resolved under a root and made relative again is itself. */
  lemma MakeRelativeOfResolve(root: ResourceRoot, path: string)
    requires root.rootPath.Some? && !StartsWith(path, "/")
    ensures Resolve(root, path).Success?
    ensures MakeRelative(root, Resolve(root, path).value) == Success(path)
  {
    var full := Resolve(root, path).value;
    var rp := root.rootPath.value;
    assert full[..|rp|] == rp;
  }

  /** The other way round: a path under the root, whose character after the root is the separator
      and whose remainder is relative, resolves back to itself. */
  lemma ResolveOfMakeRelative(root: ResourceRoot, path: string)
    requires root.rootPath.Some? && MakeRelative(root, path).Success?
    requires path[|root.rootPath.value|] == '/'
    requires !StartsWith(MakeRelative(root, path).value, "/")
    ensures Resolve(root, MakeRelative(root, path).value) == Success(path)
  {
    var rp := root.rootPath.value;
    assert path == rp + [path[|rp|]] + MakeRelative(root, path).value;
    assert [path[|rp|]] == "/";
  }

  /** The character after the root is dropped whatever it is, so a path that only shares a prefix
      with the root's last name is accepted too: "/data" makes "/database" into "ase". */
  lemma MakeRelativeIgnoresSeparator()
    ensures MakeRelative(ResourceRoot(Some("/data")), "/database") == Success("ase")
  {
    var path := "/database";
    assert StartsWith(path, "/data");
    assert path[6..] == "ase";
  }

  // ---------------------------------------------------------------------------
  // File roots.

  /** A `FilePathRoot`, by the absolute path of its root file (none when the root is null). */
  datatype FileRoot = FileRoot(rootAbsolutePath: Option<string>)

  /** `FilePathRoot.makeRelative(path)`: the same prefix test and cut against the absolute path of
      the root; a null root throws. */
  function FileMakeRelative(root: FileRoot, path: string): (r: Result<string, Error>)
    ensures root.rootAbsolutePath.None? ==> r == Failure(NullRoot)
    ensures root.rootAbsolutePath.Some? ==>
      && (r.Success? <==> StartsWith(path, root.rootAbsolutePath.value) && |path| > |root.rootAbsolutePath.value|)
      && (r.Success? ==> path == root.rootAbsolutePath.value + [path[|root.rootAbsolutePath.value|]] + r.value)
  {
    if root.rootAbsolutePath.None? then Failure(NullRoot) else StripRoot(root.rootAbsolutePath.value, path)
  }

  /** A file root and a resource root on the same path make paths relative alike. */
  lemma FileAndResourceAgree(rootPath: string, path: string)
    ensures FileMakeRelative(FileRoot(Some(rootPath)), path) == MakeRelative(ResourceRoot(Some(rootPath)), path)
  {
  }

  // ---------------------------------------------------------------------------
  // Lines.

  predicate IsTerminator(c: char) {
    c == '\n' || c == '\r'
  }

  /** The index of the first line terminator at or after `from`, if any. */
  function FindTerminator(text: string, from: nat): (r: Option<nat>)
    requires from <= |text|
    ensures r.None? ==> forall i | from <= i < |text| :: !IsTerminator(text[i])
    ensures r.Some? ==>
      && from <= r.value < |text| && IsTerminator(text[r.value])
      && (forall i | from <= i < r.value :: !IsTerminator(text[i]))
    decreases |text| - from
  {
    if from == |text| then None
    else if IsTerminator(text[from]) then Some(from)
    else FindTerminator(text, from + 1)
  }

  /** `BufferedReader.readLine()` on what is left of the text: null at the end; otherwise the
      characters up to the first "\n", "\r" or "\r\n" (or to the end), and the text after the
      terminator. */
  function ReadLine(text: string): (r: Option<(string, string)>)
    ensures r.None? <==> |text| == 0
    ensures r.Some? ==> |r.value.1| < |text|
    ensures r.Some? ==> forall i | 0 <= i < |r.value.0| :: !IsTerminator(r.value.0[i])
    ensures r.Some? ==> exists t: string | t in ["", "\n", "\r", "\r\n"] :: text == r.value.0 + t + r.value.1
  {
    if |text| == 0 then None
    else
      match FindTerminator(text, 0)
      case None =>
        assert text == text + "" + "";
        Some((text, ""))
      case Some(i) =>
        if text[i] == '\r' && i + 1 < |text| && text[i + 1] == '\n' then
          assert text == text[..i] + "\r\n" + text[i + 2..];
          Some((text[..i], text[i + 2..]))
        else
          assert text == text[..i] + [text[i]] + text[i + 1..];
          Some((text[..i], text[i + 1..]))
  }

  /** All the lines of a text, in order, without their terminators. */
  function Lines(text: string): (r: seq<string>)
    ensures forall k | 0 <= k < |r| :: forall i | 0 <= i < |r[k]| :: !IsTerminator(r[k][i])
    decreases |text|
  {
    match ReadLine(text)
    case None => []
    case Some((line, rest)) => [line] + Lines(rest)
  }

  /** The text made of the lines, each followed by "\n". */
  function JoinLines(lines: seq<string>): string {
    if |lines| == 0 then "" else lines[0] + "\n" + JoinLines(lines[1..])
  }

  /** Reading the lines of text written one per line gives the lines back. */
  lemma {:induction false} LinesOfJoinLines(lines: seq<string>)
    requires forall k | 0 <= k < |lines| :: forall i | 0 <= i < |lines[k]| :: !IsTerminator(lines[k][i])
    ensures Lines(JoinLines(lines)) == lines
    decreases |lines|
  {
    if |lines| > 0 {
      var text := JoinLines(lines);
      var rest := JoinLines(lines[1..]);
      assert text == lines[0] + "\n" + rest;
      var n := |lines[0]|;
      assert text[n] == '\n';
      assert forall i | 0 <= i < n :: text[i] == lines[0][i];
      assert FindTerminator(text, 0) == Some(n) by { FindTerminatorAt(text, 0, n); }
      assert text[..n] == lines[0];
      assert text[n + 1..] == rest;
      LinesOfJoinLines(lines[1..]);
    }
  }

  lemma {:induction false} FindTerminatorAt(text: string, from: nat, n: nat)
    requires from <= n < |text| && IsTerminator(text[n])
    requires forall i | from <= i < n :: !IsTerminator(text[i])
    ensures FindTerminator(text, from) == Some(n)
    decreases n - from
  {
    if from < n {
      FindTerminatorAt(text, from + 1, n);
    }
  }

  /** The iterator of `parseLines(text)`: the line read ahead (`None` for null) and the text not
      read yet. */
  datatype LineIterator = LineIterator(nextLine: Option<string>, rest: string)

  /** The lines an iterator still has to hand out. */
  function Remaining(it: LineIterator): seq<string> {
    (if it.nextLine.Some? then [it.nextLine.value] else []) + Lines(it.rest)
  }

  /** An iterator that has met the end of the text stays there. */
  predicate IteratorValid(it: LineIterator) {
    it.nextLine.None? ==> |it.rest| == 0
  }

  function Advance(rest: string): (r: LineIterator)
    ensures IteratorValid(r) && Remaining(r) == Lines(rest)
  {
    match ReadLine(rest)
    case None => LineIterator(None, rest)
    case Some((line, after)) => LineIterator(Some(line), after)
  }

  /** The first `iterator()` of `parseLines(text)`: the first line is read ahead; the iterator
      hands out exactly the text's lines.  Later iterators are `NewIterator` at the shared
      reader's position. */
  function Iterate(text: string): (r: LineIterator)
    ensures IteratorValid(r) && Remaining(r) == Lines(text)
  {
    Advance(text)
  }

  /** `hasNext()`: a line was read ahead. */
  function HasNext(it: LineIterator): (r: bool)
    requires IteratorValid(it)
    ensures r <==> |Remaining(it)| > 0
  {
    assert it.nextLine.None? ==> ReadLine(it.rest).None?;
    it.nextLine.Some?
  }

  /** `next()`: the line read ahead (null once the lines are used up), and the iterator with the
      following line read ahead. */
  function Next(it: LineIterator): (r: (Option<string>, LineIterator))
    requires IteratorValid(it)
    ensures IteratorValid(r.1)
    ensures |Remaining(it)| > 0 ==> r.0 == Some(Remaining(it)[0]) && Remaining(r.1) == Remaining(it)[1..]
    ensures |Remaining(it)| == 0 ==> r.0.None? && Remaining(r.1) == []
  {
    assert it.nextLine.None? ==> ReadLine(it.rest).None?;
    (it.nextLine, Advance(it.rest))
  }

  /** Calling `next()` as long as `hasNext()` holds collects the lines of the text, in order. */
  function Drain(it: LineIterator): (r: seq<string>)
    requires IteratorValid(it)
    ensures r == Remaining(it)
    decreases |Remaining(it)|
  {
    if !HasNext(it) then []
    else
      var step := Next(it);
      [step.0.value] + Drain(step.1)
  }

  /** `iterator()` of the iterable `parseLines` returns: all its iterators share the one reader
      made for the text, so a new iterator reads its first line ahead from wherever that reader
      stands.  The result is the iterator and the reader's position after it.  While one iterator
      is in use at a time, the reader stands at that iterator's `rest`. */
  function NewIterator(reader: string): (r: (LineIterator, string))
    ensures IteratorValid(r.0) && Remaining(r.0) == Lines(reader)
    ensures r.1 == r.0.rest
    ensures |Lines(reader)| > 0 ==> Lines(r.1) == Lines(reader)[1..]
  {
    var it := Advance(reader);
    assert it.nextLine.None? ==> Lines(it.rest) == [];
    (it, it.rest)
  }

  /** A second `iterator()` taken after the first does not start over: the first line was
      already read ahead for the first iterator, so the second begins at the second line. */
  lemma SecondIteratorSkipsFirstLine(text: string)
    requires |Lines(text)| > 0
    ensures var first := NewIterator(text);
      Remaining(NewIterator(first.1).0) == Lines(text)[1..]
  {
  }

  /** Once an iterator has handed out every line, the reader is used up and any later
      `iterator()` is empty: the iterable can be walked only once. */
  lemma IterableWalkedOnce(text: string)
    ensures var drained := Skip(NewIterator(text).0, |Lines(text)|);
      Remaining(NewIterator(drained.rest).0) == []
  {
    var it := NewIterator(text).0;
    SkipRemaining(it, |Lines(text)|);
    var drained := Skip(it, |Lines(text)|);
    assert Remaining(drained) == [];
    assert Lines(drained.rest) == [];
  }

  /** `parseLines(text)` yields exactly `Lines(text)`, and `hasNext()` is false after the last. */
  lemma ParseLinesYieldsLines(text: string)
    ensures Drain(Iterate(text)) == Lines(text)
    ensures var it := Iterate(text);
      forall k | 0 <= k <= |Lines(text)| :: |Remaining(Skip(it, k))| == |Lines(text)| - k
    ensures !HasNext(Skip(Iterate(text), |Lines(text)|))
  {
    var it := Iterate(text);
    forall k | 0 <= k <= |Lines(text)| ensures |Remaining(Skip(it, k))| == |Lines(text)| - k {
      SkipRemaining(it, k);
    }
    SkipRemaining(it, |Lines(text)|);
  }

  /** The iterator after k calls of `next()`. */
  function Skip(it: LineIterator, k: nat): (r: LineIterator)
    requires IteratorValid(it)
    ensures IteratorValid(r)
    decreases k
  {
    if k == 0 then it else Skip(Next(it).1, k - 1)
  }

  lemma {:induction false} SkipRemaining(it: LineIterator, k: nat)
    requires IteratorValid(it) && k <= |Remaining(it)|
    ensures Remaining(Skip(it, k)) == Remaining(it)[k..]
    decreases k
  {
    if k > 0 {
      SkipRemaining(Next(it).1, k - 1);
    }
  }
}
