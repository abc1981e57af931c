/** The scan of move_files.py `move_files`: a fail-fast check that the
    destination exists, then one pass over the source listing that moves every
    selected regular file into the destination under the same name. Directories
    are maps from entry name to entry; the console output is a log. */
module Mover {
  import opened Options
  import opened Strings
  import opened Decision

  /** A directory entry: a subdirectory, or a regular file whose contents are
      the text as a text-mode read returns it (newlines already translated),
      or `None` when reading them as UTF-8 text fails. */
  datatype Entry = Dir | File(contents: Option<string>)

  type Directory = map<string, Entry>

  /** One console line: `Moved: <name>`, or the report of a failed read. */
  datatype LogLine = Moved(name: string) | ReadError(name: string)

  datatype Status = Completed | DestinationMissing

  /** The two directories after the call, the console lines, and whether the
      call finished or raised before touching any file. */
  datatype Outcome = Outcome(source: Directory, dest: Directory, log: seq<LogLine>, status: Status)

  predicate Distinct(names: seq<string>)
  {
    forall i, j :: 0 <= i < j < |names| ==> names[i] != names[j]
  }

  /** `listing` is what `os.listdir` returns for `dir`: every name once, in
      some order. */
  ghost predicate IsListingOf(listing: seq<string>, dir: Directory)
  {
    Distinct(listing) && forall n :: n in listing <==> n in dir
  }

  /** The entry is a regular file that one of the two branches takes. */
  predicate Selected(name: string, e: Entry, crit: Criteria)
  {
    e.File? && Decide(name, e.contents, crit) != Keep
  }

  /** The files of `dir` the scan moves, with their entries. */
  function SelectedFiles(dir: Directory, crit: Criteria): Directory
  {
    map n | n in dir && Selected(n, dir[n], crit) :: dir[n]
  }

  /** What remains of `dir` once its selected files have left. */
  function Kept(dir: Directory, crit: Criteria): Directory
  {
    map n | n in dir && !Selected(n, dir[n], crit) :: dir[n]
  }

  /** `SelectedFiles` restricted to the names already visited. */
  function SelectedAmong(dir: Directory, visited: seq<string>, crit: Criteria): Directory
  {
    map n | n in dir && n in visited && Selected(n, dir[n], crit) :: dir[n]
  }

  /** `Kept` once only the names already visited have been considered. */
  function KeptAmong(dir: Directory, visited: seq<string>, crit: Criteria): Directory
  {
    map n | n in dir && !(n in visited && Selected(n, dir[n], crit)) :: dir[n]
  }

  /** The console lines one entry produces: none for a directory; for a file, a
      read-failure report when the content predicate was consulted and could
      not read it, then `Moved` when either branch took it. */
  function FileLog(name: string, e: Entry, crit: Criteria): seq<LogLine>
  {
    match e
    case Dir => []
    case File(c) =>
      (if ReadsContents(name, crit) && c.None? then [ReadError(name)] else [])
      + (if Decide(name, c, crit) != Keep then [Moved(name)] else [])
  }

  /** The console lines of the visited names, in visiting order. */
  function ScanLog(visited: seq<string>, dir: Directory, crit: Criteria): seq<LogLine>
    requires forall n :: n in visited ==> n in dir
  {
    if visited == [] then []
    else
      var last := visited[|visited| - 1];
      ScanLog(visited[..|visited| - 1], dir, crit) + FileLog(last, dir[last], crit)
  }

  /** The declared result of a call: unchanged directories and no output when
      the destination is missing; otherwise the selected files moved across
      (overwriting a destination entry of the same name) and one set of
      console lines per listed entry. */
  function Run(source: Directory, listing: seq<string>, dest: Directory, destExists: bool, crit: Criteria): Outcome
    requires forall n :: n in listing ==> n in source
  {
    if !destExists then Outcome(source, dest, [], DestinationMissing)
    else Outcome(Kept(source, crit), dest + SelectedFiles(source, crit), ScanLog(listing, source, crit), Completed)
  }

  /** `move_files`: the fail-fast check, then one pass over the listing. */
  method MoveFiles(source: Directory, listing: seq<string>, dest: Directory, destExists: bool, crit: Criteria)
    returns (r: Outcome)
    requires IsListingOf(listing, source)
    ensures r == Run(source, listing, dest, destExists, crit)
    ensures !destExists ==> r.status == DestinationMissing && r.source == source && r.dest == dest && r.log == []
    ensures destExists ==> r.status == Completed
  {
    if !destExists {
      return Outcome(source, dest, [], DestinationMissing);
    }
    var src := source;
    var dst := dest;
    var log: seq<LogLine> := [];
    var i := 0;
    while i < |listing|
      invariant 0 <= i <= |listing|
      invariant src == KeptAmong(source, listing[..i], crit)
      invariant dst == dest + SelectedAmong(source, listing[..i], crit)
      invariant log == ScanLog(listing[..i], source, crit)
    {
      var name := listing[i];
      VisitNext(source, listing, i, crit);
      var entry := src[name];
      var moved, lines := ConsiderEntry(name, entry, crit);
      if moved {
        UpdateUnion(dest, SelectedAmong(source, listing[..i], crit), name, entry);
        dst := dst[name := entry];
        src := src - {name};
      }
      log := log + lines;
      i := i + 1;
    }
    assert listing[..i] == listing;
    ListingCoversAll(source, listing, crit);
    r := Outcome(src, dst, log, Completed);
  }

  /** The body of the scan for one listed entry: skip a directory, otherwise
      try the content branch (reporting a failed read) and then the type
      branch. Returns whether the entry is to be moved and the console lines
      it produces. */
  method ConsiderEntry(name: string, entry: Entry, crit: Criteria) returns (moved: bool, lines: seq<LogLine>)
    ensures moved <==> Selected(name, entry, crit)
    ensures lines == FileLog(name, entry, crit)
  {
    moved := false;
    lines := [];
    if entry.Dir? {
      return;
    }
    var contents := entry.contents;
    var matched := false;
    if Truthy(crit.search) && EndsWith(name, MarkdownSuffix) {
      if contents.None? {
        lines := lines + [ReadError(name)];
      }
      matched := ContainsString(contents, crit.search.value);
    }
    if matched {
      moved := true;
    } else if Truthy(crit.fileType) && EndsWith(name, crit.fileType.value) {
      moved := true;
    }
    if moved {
      lines := lines + [Moved(name)];
    }
  }

  /** Visiting the next listed name changes the prefix views by that name
      alone: it leaves the remaining source when selected, arrives in the
      moved set when selected, and appends its own console lines. */
  lemma VisitNext(dir: Directory, listing: seq<string>, i: int, crit: Criteria)
    requires IsListingOf(listing, dir)
    requires 0 <= i < |listing|
    ensures listing[i] in KeptAmong(dir, listing[..i], crit)
    ensures KeptAmong(dir, listing[..i], crit)[listing[i]] == dir[listing[i]]
    ensures KeptAmong(dir, listing[..i + 1], crit) ==
      if Selected(listing[i], dir[listing[i]], crit) then KeptAmong(dir, listing[..i], crit) - {listing[i]}
      else KeptAmong(dir, listing[..i], crit)
    ensures SelectedAmong(dir, listing[..i + 1], crit) ==
      if Selected(listing[i], dir[listing[i]], crit) then SelectedAmong(dir, listing[..i], crit)[listing[i] := dir[listing[i]]]
      else SelectedAmong(dir, listing[..i], crit)
    ensures ScanLog(listing[..i + 1], dir, crit) == ScanLog(listing[..i], dir, crit) + FileLog(listing[i], dir[listing[i]], crit)
  {
    var name := listing[i];
    assert listing[..i + 1] == listing[..i] + [name];
    assert listing[..i + 1][..i] == listing[..i];
    assert name !in listing[..i];
  }

  /** Adding one entry after a union is adding it to the right-hand map. */
  lemma UpdateUnion(a: Directory, b: Directory, k: string, v: Entry)
    ensures (a + b)[k := v] == a + b[k := v]
  {
  }

  /** Once every listed name has been visited, the prefix views are the
      whole-directory ones. */
  lemma ListingCoversAll(dir: Directory, listing: seq<string>, crit: Criteria)
    requires IsListingOf(listing, dir)
    ensures KeptAmong(dir, listing, crit) == Kept(dir, crit)
    ensures SelectedAmong(dir, listing, crit) == SelectedFiles(dir, crit)
  {
  }

  /** What a completed run promises entry by entry: directories stay, selected
      files leave the source and arrive in the destination under the same name
      with the same entry, every other file stays as it was, destination
      entries not overwritten stay, and nothing else appears. */
  lemma CompletedRunFrame(source: Directory, listing: seq<string>, dest: Directory, crit: Criteria)
    requires IsListingOf(listing, source)
    ensures var r := Run(source, listing, dest, true, crit);
      && (forall n :: n in source && source[n].Dir? ==> n in r.source && r.source[n] == Dir)
      && (forall n :: n in source && Selected(n, source[n], crit) ==>
            n !in r.source && n in r.dest && r.dest[n] == source[n])
      && (forall n :: n in source && !Selected(n, source[n], crit) ==> n in r.source && r.source[n] == source[n])
      && (forall n :: n in r.source ==> n in source)
      && (forall n :: n in dest && !(n in source && Selected(n, source[n], crit)) ==> n in r.dest && r.dest[n] == dest[n])
      && (forall n :: n in r.dest ==> n in dest || n in source)
  {
  }

  /** The console lines of one file name only that file. */
  lemma FileLogNamesItsFile(name: string, e: Entry, crit: Criteria)
    ensures forall n :: Moved(n) in FileLog(name, e, crit) <==> n == name && Selected(name, e, crit)
    ensures forall n :: ReadError(n) in FileLog(name, e, crit) <==> n == name && e == File(None) && ReadsContents(name, crit)
    ensures forall n :: multiset(FileLog(name, e, crit))[Moved(n)] == if n == name && Selected(name, e, crit) then 1 else 0
  {
  }

  /** A `Moved` line appears exactly for the selected visited files, and a
      `ReadError` line exactly for the visited `.md` files the content
      predicate could not read. */
  lemma {:induction false} LogNamesSelected(visited: seq<string>, dir: Directory, crit: Criteria)
    requires forall n :: n in visited ==> n in dir
    ensures forall n :: Moved(n) in ScanLog(visited, dir, crit) <==> n in visited && Selected(n, dir[n], crit)
    ensures forall n :: ReadError(n) in ScanLog(visited, dir, crit) <==>
      n in visited && dir[n] == File(None) && ReadsContents(n, crit)
    decreases |visited|
  {
    if visited != [] {
      var prefix := visited[..|visited| - 1];
      var last := visited[|visited| - 1];
      assert visited == prefix + [last];
      LogNamesSelected(prefix, dir, crit);
      FileLogNamesItsFile(last, dir[last], crit);
    }
  }

  /** Over a listing without repeats, a selected file is logged as moved
      exactly once and any other name never. */
  lemma {:induction false} MovedLoggedOnce(visited: seq<string>, dir: Directory, crit: Criteria, name: string)
    requires forall n :: n in visited ==> n in dir
    requires Distinct(visited)
    ensures multiset(ScanLog(visited, dir, crit))[Moved(name)] == if name in visited && Selected(name, dir[name], crit) then 1 else 0
    decreases |visited|
  {
    if visited != [] {
      var prefix := visited[..|visited| - 1];
      var last := visited[|visited| - 1];
      assert visited == prefix + [last];
      assert last !in prefix;
      MovedLoggedOnce(prefix, dir, crit, name);
      FileLogNamesItsFile(last, dir[last], crit);
    }
  }

  /** After a completed scan nothing left in the source is selected, so a
      second completed run with the same criteria changes neither directory and
      logs no move. */
  lemma SecondRunMovesNothing(source: Directory, listing: seq<string>, dest: Directory, crit: Criteria, relisting: seq<string>)
    requires IsListingOf(listing, source)
    requires IsListingOf(relisting, Run(source, listing, dest, true, crit).source)
    ensures var first := Run(source, listing, dest, true, crit);
      var second := Run(first.source, relisting, first.dest, true, crit);
      && second.source == first.source
      && second.dest == first.dest
      && forall n :: Moved(n) !in second.log
  {
    var first := Run(source, listing, dest, true, crit);
    KeptIsStable(source, crit);
    assert first.dest + map[] == first.dest;
    LogNamesSelected(relisting, first.source, crit);
  }

  /** Nothing left behind by a scan is selected by the same criteria, so
      scanning the remainder again keeps all of it. */
  lemma KeptIsStable(dir: Directory, crit: Criteria)
    ensures SelectedFiles(Kept(dir, crit), crit) == map[]
    ensures Kept(Kept(dir, crit), crit) == Kept(dir, crit)
  {
    var k := Kept(dir, crit);
    assert forall n :: n in k ==> !Selected(n, k[n], crit);
    assert SelectedFiles(k, crit).Keys == {};
  }

  /** A completed scan splits the source: every entry either stays or arrives
      in the destination, never both, and nothing else appears. */
  lemma ScanPartitionsSource(source: Directory, crit: Criteria)
    ensures Kept(source, crit).Keys !! SelectedFiles(source, crit).Keys
    ensures Kept(source, crit).Keys + SelectedFiles(source, crit).Keys == source.Keys
    ensures |Kept(source, crit)| + |SelectedFiles(source, crit)| == |source|
  {
    var k := Kept(source, crit).Keys;
    var s := SelectedFiles(source, crit).Keys;
    assert k + s == source.Keys;
    assert |k + s| == |k| + |s|;
  }

  /** With both criteria absent or empty the scan moves nothing. */
  lemma NoCriteriaMovesNothing(source: Directory, listing: seq<string>, dest: Directory, crit: Criteria)
    requires IsListingOf(listing, source)
    requires !Truthy(crit.search) && !Truthy(crit.fileType)
    ensures Run(source, listing, dest, true, crit).source == source
    ensures Run(source, listing, dest, true, crit).dest == dest
  {
    assert SelectedFiles(source, crit) == map[];
  }

  /** A three-file scan: `a.md` holding "TODO", `b.md` without it and `c.txt`,
      searched for "TODO" with type ".txt", leave `b.md` in the source and move
      `a.md` and `c.txt`. */
  lemma ThreeFileScan(dest: Directory)
    ensures var source := map["a.md" := File(Some("- TODO")), "b.md" := File(Some("done")), "c.txt" := File(Some(""))];
      var r := Run(source, ["a.md", "b.md", "c.txt"], dest, true, Criteria(Some("TODO"), Some(".txt")));
      && r.source == map["b.md" := File(Some("done"))]
      && r.dest == dest["a.md" := File(Some("- TODO"))]["c.txt" := File(Some(""))]
      && r.log == [Moved("a.md"), Moved("c.txt")]
  {
    var source := map["a.md" := File(Some("- TODO")), "b.md" := File(Some("done")), "c.txt" := File(Some(""))];
    var listing := ["a.md", "b.md", "c.txt"];
    var crit := Criteria(Some("TODO"), Some(".txt"));
    ExampleVerdicts();
    assert Selected("a.md", source["a.md"], crit);
    assert !Selected("b.md", source["b.md"], crit);
    assert Selected("c.txt", source["c.txt"], crit);
    assert source.Keys == {"a.md", "b.md", "c.txt"};
    assert Kept(source, crit).Keys == {"b.md"};
    assert Kept(source, crit) == map["b.md" := File(Some("done"))];
    assert SelectedFiles(source, crit).Keys == {"a.md", "c.txt"};
    assert SelectedFiles(source, crit) == map["a.md" := File(Some("- TODO")), "c.txt" := File(Some(""))];
    assert FileLog("a.md", source["a.md"], crit) == [Moved("a.md")];
    assert FileLog("b.md", source["b.md"], crit) == [];
    assert FileLog("c.txt", source["c.txt"], crit) == [Moved("c.txt")];
    assert listing[..2] == ["a.md", "b.md"];
    assert listing[..2][..1] == ["a.md"];
    assert ScanLog(["a.md"], source, crit) == [Moved("a.md")];
    assert ScanLog(listing[..2], source, crit) == [Moved("a.md")];
    assert ScanLog(listing, source, crit) == [Moved("a.md"), Moved("c.txt")];
    assert dest + SelectedFiles(source, crit) == dest["a.md" := File(Some("- TODO"))]["c.txt" := File(Some(""))];
  }

  /** The three per-file decisions of `ThreeFileScan`. */
  lemma ExampleVerdicts()
    ensures var crit := Criteria(Some("TODO"), Some(".txt"));
      && Decide("a.md", Some("- TODO"), crit) == ByContent
      && Decide("b.md", Some("done"), crit) == Keep
      && Decide("c.txt", Some(""), crit) == ByType
      && !ReadsContents("c.txt", crit)
  {
    assert Contains("- TODO", "TODO") by { assert OccursAt("- TODO", "TODO", 2); }
    assert !Contains("done", "TODO") by {
      assert "done"[..4][0] != "TODO"[0];
      assert "done"[1..] == "one";
    }
    assert !EndsWith("b.md", ".txt") by { assert "b.md"[0..][0] != ".txt"[0]; }
    assert !EndsWith("c.txt", ".md") by { assert "c.txt"[2..][1] != ".md"[1]; }
  }
}
