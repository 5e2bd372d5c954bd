/** The two archive extraction loops of self_update.rs and the path check they share. */
module Archives {
  import opened Prelude

  const U64_LIMIT: nat := 0x1_0000_0000_0000_0000

  type U64 = x: int | 0 <= x < U64_LIMIT

  const MAX_ENTRIES: nat := 4096
  const MAX_ENTRY_BYTES: nat := 128 * 1024 * 1024
  const MAX_TOTAL_BYTES: nat := 256 * 1024 * 1024
  const MAX_PATH_DEPTH: nat := 32

  /** A path component; a normal one may not be UTF-8. */
  datatype Component = Prefix | RootDir | CurDir | ParentDir | Normal(utf8: Option<string>)

  type Path = seq<Component>

  datatype EntryKind = File | Directory | Symlink | Special

  /** An archive entry; `None` stands for a part that cannot be read. */
  datatype Entry = Entry(path: Option<Path>, kind: EntryKind, size: Option<U64>, content: seq<Byte>, copyFails: bool)

  /** File names that count as the executable. */
  datatype Names = Names(wanted: string, binary: string)

  datatype ArchiveError =
    | AbsolutePath | TooDeep | Traversal | EmptyPath
    | TooManyEntries | Unreadable | NonRegular | EntryTooLarge | SizeOverflow | TotalTooLarge
    | CopyFailed | NotFound

  // ----- Paths -----

  predicate IsAbsolute(path: Path) {
    path != [] && path[0].RootDir?
  }

  function Depth(path: Path): (n: nat)
    ensures n <= |path|
  {
    if path == [] then 0 else Depth(path[..|path| - 1]) + (if path[|path| - 1].Normal? then 1 else 0)
  }

  /** Relative, free of traversal, and between 1 and 32 names deep. */
  predicate SafePath(path: Path) {
    && !IsAbsolute(path)
    && (forall i :: 0 <= i < |path| ==> path[i].Normal? || path[i].CurDir?)
    && 1 <= Depth(path) <= MAX_PATH_DEPTH
  }

  /** What a path error says of the path. */
  predicate PathFault(path: Path, error: ArchiveError) {
    match error
    case AbsolutePath => IsAbsolute(path)
    case TooDeep => Depth(path) > MAX_PATH_DEPTH
    case Traversal => exists i :: 0 <= i < |path| && !path[i].Normal? && !path[i].CurDir?
    case EmptyPath => Depth(path) == 0
    case _ => false
  }

  lemma {:induction false} DepthGrows(path: Path, n: nat)
    requires n <= |path|
    ensures Depth(path[..n]) <= Depth(path)
    decreases |path|
  {
    if n < |path| {
      assert path[..|path| - 1][..n] == path[..n];
      DepthGrows(path[..|path| - 1], n);
    } else {
      assert path[..n] == path;
    }
  }

  method ValidateArchivePath(path: Path) returns (failure: Option<ArchiveError>)
    ensures failure.None? <==> SafePath(path)
    ensures failure.Some? ==> PathFault(path, failure.value)
  {
    if IsAbsolute(path) {
      return Some(AbsolutePath);
    }
    var depth := 0;
    for i := 0 to |path|
      invariant depth == Depth(path[..i]) <= MAX_PATH_DEPTH
      invariant forall j :: 0 <= j < i ==> path[j].Normal? || path[j].CurDir?
    {
      assert path[..i + 1][..i] == path[..i];
      match path[i] {
        case Normal(_) =>
          depth := depth + 1;
          if depth > MAX_PATH_DEPTH {
            DepthGrows(path, i + 1);
            return Some(TooDeep);
          }
        case CurDir =>
        case ParentDir => return Some(Traversal);
        case RootDir => return Some(Traversal);
        case Prefix => return Some(Traversal);
      }
    }
    assert path[..|path|] == path;
    failure := if depth == 0 then Some(EmptyPath) else None;
  }

  /** `Path::file_name` followed by `to_str`. */
  function FileName(path: Path): Option<string> {
    if path != [] && path[|path| - 1].Normal? then path[|path| - 1].utf8 else None
  }

  // ----- One first-match specification for both formats -----

  datatype Format = Tar | Zip

  predicate IsMatch(names: Names, e: Entry) {
    && e.path.Some? && !e.kind.Directory?
    && (FileName(e.path.value) == Some(names.wanted) || FileName(e.path.value) == Some(names.binary))
  }

  /** What the format's loop demands of every entry it passes. */
  predicate Sound(format: Format, e: Option<Entry>) {
    && e.Some? && e.value.path.Some? && SafePath(e.value.path.value)
    && match format
       case Tar => (e.value.kind.File? || e.value.kind.Directory?) && SizeFits(e.value)
       case Zip => e.value.kind.Directory? || (!e.value.kind.Symlink? && SizeFits(e.value))
  }

  predicate SizeFits(e: Entry) {
    e.size.Some? && e.size.value <= MAX_ENTRY_BYTES
  }

  /** What an entry adds to the byte budget; zip skips directories before counting. */
  function Counted(format: Format, e: Option<Entry>): nat {
    if e.None? || e.value.size.None? || (format.Zip? && e.value.kind.Directory?) then 0 else e.value.size.value
  }

  function CountedSum(format: Format, entries: seq<Option<Entry>>): nat
    decreases |entries|
  {
    if entries == [] then 0
    else CountedSum(format, entries[..|entries| - 1]) + Counted(format, entries[|entries| - 1])
  }

  /** Entry `k` is the first match, everything up to it is sound, and the budget covers it. */
  predicate Chosen(format: Format, entries: seq<Option<Entry>>, names: Names, k: nat) {
    && k < |entries|
    && (forall i :: 0 <= i <= k ==> Sound(format, entries[i]))
    && (forall i :: 0 <= i < k ==> !IsMatch(names, entries[i].value))
    && IsMatch(names, entries[k].value)
    && CountedSum(format, entries[..k + 1]) <= MAX_TOTAL_BYTES
    && (match format case Tar => k < MAX_ENTRIES case Zip => |entries| <= MAX_ENTRIES)
  }

  predicate Copies(e: Entry, written: seq<Byte>) {
    !e.copyFails && |e.content| <= MAX_ENTRY_BYTES && written == e.content
  }

  ghost predicate Extracts(format: Format, entries: seq<Option<Entry>>, names: Names, written: seq<Byte>) {
    exists k: nat :: Chosen(format, entries, names, k) && Copies(entries[k].value, written)
  }

  lemma ChosenIsUnique(format: Format, entries: seq<Option<Entry>>, names: Names, k: nat, j: nat)
    requires Chosen(format, entries, names, k) && Chosen(format, entries, names, j)
    ensures k == j
  {
  }

  lemma {:induction false} SumGrows(format: Format, entries: seq<Option<Entry>>, n: nat)
    requires n <= |entries|
    ensures CountedSum(format, entries[..n]) <= CountedSum(format, entries)
    decreases |entries|
  {
    if n < |entries| {
      assert entries[..|entries| - 1][..n] == entries[..n];
      SumGrows(format, entries[..|entries| - 1], n);
    } else {
      assert entries[..n] == entries;
    }
  }

  lemma SumStep(format: Format, entries: seq<Option<Entry>>, i: nat)
    requires i < |entries|
    ensures CountedSum(format, entries[..i + 1]) == CountedSum(format, entries[..i]) + Counted(format, entries[i])
  {
    assert entries[..i + 1][..i] == entries[..i];
  }

  /** What a loop has established when it stands before entry `i`. */
  predicate Passed(format: Format, entries: seq<Option<Entry>>, names: Names, i: nat, total: nat) {
    && i <= |entries|
    && (forall j :: 0 <= j < i ==> Sound(format, entries[j]) && !IsMatch(names, entries[j].value))
    && total == CountedSum(format, entries[..i]) <= MAX_TOTAL_BYTES
  }

  /** The whole archive is sound and within budget, and nothing in it matches. */
  predicate NothingToFind(format: Format, entries: seq<Option<Entry>>, names: Names) {
    |entries| <= MAX_ENTRIES && Passed(format, entries, names, |entries|, CountedSum(format, entries))
  }

  /** An entry that is unsound or over budget ends every hope of a choice. */
  lemma NothingBeyond(format: Format, entries: seq<Option<Entry>>, names: Names, i: nat, total: nat, error: ArchiveError)
    requires Passed(format, entries, names, i, total) && i < |entries|
    requires !Sound(format, entries[i]) || total + Counted(format, entries[i]) > MAX_TOTAL_BYTES
    requires FaultHere(format, entries[i], total, error)
    ensures forall k: nat :: !Chosen(format, entries, names, k)
    ensures !NothingToFind(format, entries, names)
    ensures FaultAt(format, entries, i, error)
  {
    SumStep(format, entries, i);
    SumGrows(format, entries, i + 1);
    forall k: nat ensures !Chosen(format, entries, names, k) {
      if Chosen(format, entries, names, k) && i <= k {
        assert entries[..k + 1][..i + 1] == entries[..i + 1];
        SumGrows(format, entries[..k + 1], i + 1);
      }
    }
  }

  lemma NoMatchNoChoice(format: Format, entries: seq<Option<Entry>>, names: Names, total: nat)
    requires Passed(format, entries, names, |entries|, total)
    ensures forall k: nat :: !Chosen(format, entries, names, k)
    ensures |entries| <= MAX_ENTRIES ==> NothingToFind(format, entries, names)
  {
    assert entries[..|entries|] == entries;
  }

  lemma MatchIsChoice(format: Format, entries: seq<Option<Entry>>, names: Names, i: nat, total: nat)
    requires Passed(format, entries, names, i, total) && i < |entries|
    requires Sound(format, entries[i]) && IsMatch(names, entries[i].value)
    requires total + Counted(format, entries[i]) <= MAX_TOTAL_BYTES
    requires match format case Tar => i < MAX_ENTRIES case Zip => |entries| <= MAX_ENTRIES
    ensures Chosen(format, entries, names, i)
    ensures forall written :: Extracts(format, entries, names, written) <==> Copies(entries[i].value, written)
  {
    SumStep(format, entries, i);
    forall written ensures Extracts(format, entries, names, written) <==> Copies(entries[i].value, written) {
      if k: nat :| Chosen(format, entries, names, k) && Copies(entries[k].value, written) {
        ChosenIsUnique(format, entries, names, k, i);
      }
    }
  }

  /** What an extraction error says of the entry it stopped at. */
  predicate EntryFault(format: Format, e: Entry, error: ArchiveError) {
    match error
    case Unreadable => e.path.None? || e.size.None?
    case NonRegular => (match format case Tar => !e.kind.File? && !e.kind.Directory? case Zip => e.kind.Symlink?)
    case EntryTooLarge => (e.size.Some? && e.size.value > MAX_ENTRY_BYTES) || |e.content| > MAX_ENTRY_BYTES
    case CopyFailed => e.copyFails
    case _ => e.path.Some? && PathFault(e.path.value, error)
  }

  /** The entry, met after `total` counted bytes, is why the loop stopped. */
  predicate FaultHere(format: Format, entry: Option<Entry>, total: nat, error: ArchiveError) {
    match entry
    case None => error.Unreadable?
    case Some(e) =>
      EntryFault(format, e, error) || (error.TotalTooLarge? && total + Counted(format, entry) > MAX_TOTAL_BYTES)
  }

  predicate FaultAt(format: Format, entries: seq<Option<Entry>>, i: nat, error: ArchiveError) {
    i < |entries| && FaultHere(format, entries[i], CountedSum(format, entries[..i]), error)
  }

  predicate IsCause(format: Format, entries: seq<Option<Entry>>, names: Names, error: ArchiveError) {
    match error
    case NotFound => NothingToFind(format, entries, names)
    case TooManyEntries => |entries| > MAX_ENTRIES
    case _ => exists i :: 0 <= i < |entries| && FaultAt(format, entries, i, error)
  }

  // ----- The loops -----

  /** Create the file, `io::copy` the entry limited to one byte past the cap, and check after it. */
  method CopyEntry(e: Entry, ghost format: Format) returns (r: Result<seq<Byte>, ArchiveError>, file: seq<Byte>)
    ensures forall written :: r == Ok(written) <==> Copies(e, written)
    ensures r.Err? ==> r.error in {CopyFailed, EntryTooLarge} && EntryFault(format, e, r.error)
    ensures r.Ok? ==> file == r.value
  {
    file := [];
    if e.copyFails {
      return Err(CopyFailed), file;
    }
    file := if |e.content| <= MAX_ENTRY_BYTES + 1 then e.content else e.content[..MAX_ENTRY_BYTES + 1];
    if |file| > MAX_ENTRY_BYTES {
      return Err(EntryTooLarge), file;
    }
    r := Ok(file);
  }

  method ExtractTar(entries: seq<Option<Entry>>, names: Names) returns (r: Result<seq<Byte>, ArchiveError>)
    ensures forall written :: r == Ok(written) <==> Extracts(Tar, entries, names, written)
    ensures r == Err(NotFound) <==> NothingToFind(Tar, entries, names)
    ensures r.Err? ==> IsCause(Tar, entries, names, r.error)
    ensures r != Err(SizeOverflow)
  {
    var total: nat := 0;
    var seen := 0;
    for i := 0 to |entries|
      invariant seen == i <= MAX_ENTRIES
      invariant Passed(Tar, entries, names, i, total)
    {
      seen := seen + 1;
      if seen > MAX_ENTRIES {
        return Err(TooManyEntries);
      }
      if entries[i].None? || entries[i].value.path.None? {
        NothingBeyond(Tar, entries, names, i, total, Unreadable);
        return Err(Unreadable);
      }
      var e := entries[i].value;
      var path := e.path.value;
      var failure := ValidateArchivePath(path);
      if failure.Some? {
        NothingBeyond(Tar, entries, names, i, total, failure.value);
        return Err(failure.value);
      }
      if !(e.kind.File? || e.kind.Directory?) {
        NothingBeyond(Tar, entries, names, i, total, NonRegular);
        return Err(NonRegular);
      }
      if e.size.None? {
        NothingBeyond(Tar, entries, names, i, total, Unreadable);
        return Err(Unreadable);
      }
      var size := e.size.value;
      if size > MAX_ENTRY_BYTES {
        NothingBeyond(Tar, entries, names, i, total, EntryTooLarge);
        return Err(EntryTooLarge);
      }
      if total + size >= U64_LIMIT {
        return Err(SizeOverflow);
      }
      if total + size > MAX_TOTAL_BYTES {
        NothingBeyond(Tar, entries, names, i, total, TotalTooLarge);
        return Err(TotalTooLarge);
      }
      SumStep(Tar, entries, i);
      if IsMatch(names, e) {
        MatchIsChoice(Tar, entries, names, i, total);
        var written;
        r, written := CopyEntry(e, Tar);
        assert r.Err? ==> FaultAt(Tar, entries, i, r.error);
        return;
      }
      total := total + size;
    }
    NoMatchNoChoice(Tar, entries, names, total);
    r := Err(NotFound);
  }

  /** Besides the verdict, `files` is what extraction leaves in a directory that was empty. */
  method ExtractZip(entries: seq<Option<Entry>>, names: Names)
    returns (r: Result<seq<Byte>, ArchiveError>, files: map<string, seq<Byte>>)
    ensures forall written :: r == Ok(written) <==> Extracts(Zip, entries, names, written)
    ensures r == Err(NotFound) <==> NothingToFind(Zip, entries, names)
    ensures r.Err? ==> IsCause(Zip, entries, names, r.error)
    ensures r != Err(SizeOverflow)
    ensures r.Ok? ==> files == map[names.wanted := r.value]
    ensures r.Err? ==> files.Keys <= {names.wanted}
  {
    files := map[];
    if |entries| > MAX_ENTRIES {
      return Err(TooManyEntries), files;
    }
    var total: nat := 0;
    for i := 0 to |entries|
      invariant Passed(Zip, entries, names, i, total)
    {
      if entries[i].None? || entries[i].value.path.None? {
        NothingBeyond(Zip, entries, names, i, total, Unreadable);
        return Err(Unreadable), files;
      }
      var e := entries[i].value;
      var path := e.path.value;
      var failure := ValidateArchivePath(path);
      if failure.Some? {
        NothingBeyond(Zip, entries, names, i, total, failure.value);
        return Err(failure.value), files;
      }
      SumStep(Zip, entries, i);
      if !e.kind.Directory? {
        if e.kind.Symlink? {
          NothingBeyond(Zip, entries, names, i, total, NonRegular);
          return Err(NonRegular), files;
        }
        if e.size.None? {
          NothingBeyond(Zip, entries, names, i, total, Unreadable);
          return Err(Unreadable), files;
        }
        var size := e.size.value;
        if size > MAX_ENTRY_BYTES {
          NothingBeyond(Zip, entries, names, i, total, EntryTooLarge);
          return Err(EntryTooLarge), files;
        }
        if total + size >= U64_LIMIT {
          return Err(SizeOverflow), files;
        }
        if total + size > MAX_TOTAL_BYTES {
          NothingBeyond(Zip, entries, names, i, total, TotalTooLarge);
          return Err(TotalTooLarge), files;
        }
        if IsMatch(names, e) {
          MatchIsChoice(Zip, entries, names, i, total);
          var written;
          r, written := CopyEntry(e, Zip);
          files := files[names.wanted := written];
          assert r.Err? ==> FaultAt(Zip, entries, i, r.error);
          return;
        }
        total := total + size;
      }
    }
    NoMatchNoChoice(Zip, entries, names, total);
    r := Err(NotFound);
  }

  // ----- The formats compared -----

  /** Only regular files and directories of size zero, all readable, few enough for either format. */
  predicate Plain(entries: seq<Option<Entry>>) {
    && |entries| <= MAX_ENTRIES
    && forall i :: 0 <= i < |entries| ==>
         && entries[i].Some?
         && (entries[i].value.kind.File? || (entries[i].value.kind.Directory? && entries[i].value.size == Some(0)))
  }

  lemma {:induction false} PlainSumsAgree(entries: seq<Option<Entry>>)
    requires Plain(entries)
    ensures CountedSum(Tar, entries) == CountedSum(Zip, entries)
    decreases |entries|
  {
    if entries != [] {
      PlainSumsAgree(entries[..|entries| - 1]);
    }
  }

  /** On plain archives both formats choose the same entry and write the same bytes. */
  lemma FormatsAgreeOnPlainArchives(entries: seq<Option<Entry>>, names: Names)
    requires Plain(entries)
    ensures forall k: nat :: Chosen(Tar, entries, names, k) <==> Chosen(Zip, entries, names, k)
    ensures forall written :: Extracts(Tar, entries, names, written) <==> Extracts(Zip, entries, names, written)
  {
    forall k: nat ensures Chosen(Tar, entries, names, k) <==> Chosen(Zip, entries, names, k) {
      if k < |entries| {
        PlainSumsAgree(entries[..k + 1]);
        assert forall i :: 0 <= i <= k ==> (Sound(Tar, entries[i]) <==> Sound(Zip, entries[i]));
      }
    }
    forall written ensures Extracts(Tar, entries, names, written) <==> Extracts(Zip, entries, names, written) {
      if k: nat :| Chosen(Tar, entries, names, k) && Copies(entries[k].value, written) {
        assert Chosen(Zip, entries, names, k);
      }
      if k: nat :| Chosen(Zip, entries, names, k) && Copies(entries[k].value, written) {
        assert Chosen(Tar, entries, names, k);
      }
    }
  }

  /** Matches after the first play no part: a duplicate executable is neither chosen nor refused. */
  lemma LaterEntriesAreIgnored(format: Format, entries: seq<Option<Entry>>, more: seq<Option<Entry>>, names: Names, k: nat)
    requires Chosen(format, entries, names, k)
    requires format.Zip? ==> |entries + more| <= MAX_ENTRIES
    ensures Chosen(format, entries + more, names, k)
    ensures forall written :: Extracts(format, entries + more, names, written) <==> Extracts(format, entries, names, written)
  {
    assert (entries + more)[..k + 1] == entries[..k + 1];
    ChoiceDecides(format, entries, names, k);
    ChoiceDecides(format, entries + more, names, k);
  }

  lemma ChoiceDecides(format: Format, entries: seq<Option<Entry>>, names: Names, k: nat)
    requires Chosen(format, entries, names, k)
    ensures forall written :: Extracts(format, entries, names, written) <==> Copies(entries[k].value, written)
  {
    forall written ensures Extracts(format, entries, names, written) <==> Copies(entries[k].value, written) {
      if j: nat :| Chosen(format, entries, names, j) && Copies(entries[j].value, written) {
        ChosenIsUnique(format, entries, names, j, k);
      }
    }
  }

  predicate IsMatchAt(entries: seq<Option<Entry>>, names: Names, k: nat) {
    k < |entries| && entries[k].Some? && IsMatch(names, entries[k].value)
  }

  ghost predicate Refused(format: Format, entries: seq<Option<Entry>>, names: Names) {
    forall written :: !Extracts(format, entries, names, written)
  }

  /**
   An archive with several executables is refused exactly when its first one is not a sound choice within
   budget, or does not copy; what the others are makes no difference.
   */
  lemma DuplicatesAreRefusedIff(format: Format, entries: seq<Option<Entry>>, names: Names, first: nat, second: nat)
    requires first < second && IsMatchAt(entries, names, first) && IsMatchAt(entries, names, second)
    requires forall i :: 0 <= i < first ==> !IsMatchAt(entries, names, i)
    ensures Refused(format, entries, names) <==>
              || !Chosen(format, entries, names, first)
              || entries[first].value.copyFails
              || |entries[first].value.content| > MAX_ENTRY_BYTES
    ensures forall written :: Extracts(format, entries, names, written) ==> written == entries[first].value.content
  {
    forall k: nat | Chosen(format, entries, names, k) ensures k == first {
      assert IsMatchAt(entries, names, k);
    }
    if Chosen(format, entries, names, first) {
      ChoiceDecides(format, entries, names, first);
      var content := entries[first].value.content;
      assert Copies(entries[first].value, content) <==> Extracts(format, entries, names, content);
    }
  }

  const TOOL: Names := Names("tool", "tool")

  function ToolEntry(byte: Byte): Option<Entry> {
    Some(Entry(Some([Normal(Some("tool"))]), File, Some(1), [byte], false))
  }

  /** Two entries named `tool` with different contents: the first is installed, by either format. */
  lemma FirstOfTwoIsExtracted(format: Format)
    ensures var entries := [ToolEntry(1), ToolEntry(2)];
            Extracts(format, entries, TOOL, [1]) && !Extracts(format, entries, TOOL, [2])
  {
    var entries := [ToolEntry(1), ToolEntry(2)];
    var path := [Normal(Some("tool"))];
    assert path[..0] == [] && Depth(path) == 1;
    assert IsMatchAt(entries, TOOL, 0) && IsMatchAt(entries, TOOL, 1);
    SumStep(format, entries, 0);
    assert CountedSum(format, entries[..0]) == 0;
    assert Chosen(format, entries, TOOL, 0);
    DuplicatesAreRefusedIff(format, entries, TOOL, 0, 1);
    ChoiceDecides(format, entries, TOOL, 0);
  }

  // ----- Names, wherever the executable lies -----

  /** A path of named directories ending in `name`; `None` is a name that is not UTF-8. */
  predicate LeadsTo(path: Path, dirs: Path, name: Option<string>) {
    && path == dirs + [Normal(name)] && |dirs| < 32
    && forall i :: 0 <= i < |dirs| ==> dirs[i].Normal?
  }

  /** One readable entry of at most 128 MiB. */
  predicate IsModest(e: Entry) {
    !e.copyFails && |e.content| <= 134217728 && e.size.Some? && e.size.value <= 134217728
  }

  lemma {:induction false} NormalDepth(path: Path)
    requires forall i :: 0 <= i < |path| ==> path[i].Normal?
    ensures Depth(path) == |path|
  {
    if path != [] {
      NormalDepth(path[..|path| - 1]);
    }
  }

  lemma LeadingPathIsSafe(path: Path, dirs: Path, name: Option<string>)
    requires LeadsTo(path, dirs, name)
    ensures SafePath(path) && FileName(path) == name
  {
    NormalDepth(path);
  }

  lemma ModestEntry(format: Format, e: Entry, names: Names, dirs: Path, name: Option<string>)
    requires e.path.Some? && LeadsTo(e.path.value, dirs, name) && (e.kind.File? || e.kind.Directory?) && IsModest(e)
    ensures Sound(format, Some(e)) && Counted(format, Some(e)) <= 134217728
    ensures IsMatch(names, e) <==> e.kind.File? && (name == Some(names.wanted) || name == Some(names.binary))
  {
    LeadingPathIsSafe(e.path.value, dirs, name);
  }

  lemma CountedAlone(format: Format, e: Option<Entry>)
    ensures CountedSum(format, [e]) == Counted(format, e)
  {
    assert [e][..0] == [];
    SumStep(format, [e], 0);
    assert [e][..1] == [e];
  }

  /**
   A file alone in its archive is extracted exactly when its own name, the last of its path, is an
   executable name, whatever directories it lies in; a directory never is.
   */
  lemma LoneEntryIsExtractedIff(format: Format, e: Entry, names: Names, dirs: Path, name: Option<string>)
    requires e.path.Some? && LeadsTo(e.path.value, dirs, name) && (e.kind.File? || e.kind.Directory?) && IsModest(e)
    ensures Extracts(format, [Some(e)], names, e.content)
            <==> e.kind.File? && (name == Some(names.wanted) || name == Some(names.binary))
    ensures !Extracts(format, [Some(e)], names, e.content) ==> NothingToFind(format, [Some(e)], names)
  {
    var entries := [Some(e)];
    ModestEntry(format, e, names, dirs, name);
    CountedAlone(format, Some(e));
    assert entries[..1] == entries && entries[..0] == [];
    if IsMatch(names, e) {
      assert Chosen(format, entries, names, 0);
      ChoiceDecides(format, entries, names, 0);
    } else {
      NoMatchNoChoice(format, entries, names, CountedSum(format, entries));
    }
  }

  /** Entries the loop passes over: named neither way, or directories. */
  predicate IsPassedOver(e: Option<Entry>, names: Names, dirs: Path, name: Option<string>) {
    && e.Some? && e.value.path.Some? && LeadsTo(e.value.path.value, dirs, name) && IsModest(e.value)
    && (e.value.kind.Directory? || (e.value.kind.File? && name != Some(names.wanted) && name != Some(names.binary)))
  }

  ghost predicate ArePassedOver(front: seq<Option<Entry>>, names: Names) {
    forall i :: 0 <= i < |front| ==> exists dirs, name :: IsPassedOver(front[i], names, dirs, name)
  }

  lemma PassedOverIsSound(format: Format, front: seq<Option<Entry>>, names: Names, i: nat)
    requires ArePassedOver(front, names) && i < |front|
    ensures Sound(format, front[i]) && !IsMatch(names, front[i].value)
  {
    var dirs, name :| IsPassedOver(front[i], names, dirs, name);
    ModestEntry(format, front[i].value, names, dirs, name);
  }

  lemma {:induction false} CountedConcat(format: Format, front: seq<Option<Entry>>, back: seq<Option<Entry>>)
    ensures CountedSum(format, front + back) == CountedSum(format, front) + CountedSum(format, back)
    decreases |back|
  {
    if back == [] {
      assert front + back == front;
    } else {
      var all := front + back;
      assert all[..|all| - 1] == front + back[..|back| - 1];
      CountedConcat(format, front, back[..|back| - 1]);
    }
  }

  /** Within 256 MiB and 4096 entries, what stands in front under other names changes nothing about what is written. */
  lemma OtherNamesInFrontAreIgnored(format: Format, front: seq<Option<Entry>>, entries: seq<Option<Entry>>, names: Names)
    requires ArePassedOver(front, names)
    requires |front + entries| <= 4096 && CountedSum(format, front + entries) <= 268435456
    ensures forall written :: Extracts(format, front + entries, names, written) <==> Extracts(format, entries, names, written)
  {
    forall k: nat ensures Chosen(format, front + entries, names, |front| + k) <==> Chosen(format, entries, names, k) {
      ShiftedChoice(format, front, entries, names, k);
    }
    forall written ensures Extracts(format, front + entries, names, written) <==> Extracts(format, entries, names, written) {
      if k: nat :| Chosen(format, entries, names, k) && Copies(entries[k].value, written) {
        assert Chosen(format, front + entries, names, |front| + k);
        assert (front + entries)[|front| + k] == entries[k];
      }
      if k: nat :| Chosen(format, front + entries, names, k) && Copies((front + entries)[k].value, written) {
        NoChoiceInFront(format, front, entries, names, k);
        assert Chosen(format, front + entries, names, |front| + (k - |front|));
      }
    }
  }

  lemma NoChoiceInFront(format: Format, front: seq<Option<Entry>>, entries: seq<Option<Entry>>, names: Names, k: nat)
    requires ArePassedOver(front, names) && Chosen(format, front + entries, names, k)
    ensures k >= |front|
  {
    if k < |front| {
      PassedOverIsSound(format, front, names, k);
    }
  }

  lemma ShiftedChoice(format: Format, front: seq<Option<Entry>>, entries: seq<Option<Entry>>, names: Names, k: nat)
    requires ArePassedOver(front, names)
    requires |front + entries| <= 4096 && CountedSum(format, front + entries) <= 268435456
    ensures Chosen(format, front + entries, names, |front| + k) <==> Chosen(format, entries, names, k)
  {
    var all := front + entries;
    if k < |entries| {
      assert all[..|front| + k + 1] == front + entries[..k + 1];
      CountedConcat(format, front, entries[..k + 1]);
      SumGrows(format, all, |front| + k + 1);
      forall i | 0 <= i < |front| ensures Sound(format, all[i]) && !IsMatch(names, all[i].value) {
        PassedOverIsSound(format, front, names, i);
      }
      forall i | 0 <= i < |entries| ensures all[|front| + i] == entries[i] {
      }
      SameBehindFront(format, front, entries, names, k);
    }
  }

  /** Soundness and matches of what stands behind do not depend on what stands in front. */
  lemma SameBehindFront(format: Format, front: seq<Option<Entry>>, entries: seq<Option<Entry>>, names: Names, k: nat)
    requires k < |entries|
    requires forall i :: 0 <= i < |front| ==> Sound(format, front[i]) && !IsMatch(names, front[i].value)
    ensures (forall i :: 0 <= i <= |front| + k ==> Sound(format, (front + entries)[i]))
            <==> (forall i :: 0 <= i <= k ==> Sound(format, entries[i]))
    ensures (forall i :: 0 <= i <= k ==> Sound(format, entries[i])) ==>
              ((forall i :: 0 <= i < |front| + k ==> !IsMatch(names, (front + entries)[i].value))
               <==> (forall i :: 0 <= i < k ==> !IsMatch(names, entries[i].value)))
  {
    var all := front + entries;
    assert forall i :: 0 <= i <= k ==> entries[i] == all[|front| + i];
    assert forall i :: |front| <= i <= |front| + k ==> all[i] == entries[i - |front|];
  }

  // ----- Limits -----

  /** What an entry up to the chosen one satisfies, in figures. */
  predicate IsWithinLimits(format: Format, e: Option<Entry>) {
    && e.Some? && e.value.path.Some?
    && (forall i :: 0 <= i < |e.value.path.value| ==> e.value.path.value[i].Normal? || e.value.path.value[i].CurDir?)
    && ((forall i :: 0 <= i < |e.value.path.value| ==> e.value.path.value[i].Normal?) ==> 1 <= |e.value.path.value| <= 32)
    && !e.value.kind.Symlink? && (format.Tar? ==> !e.value.kind.Special?)
    && (e.value.kind.File? ==> e.value.size.Some? && e.value.size.value <= 134217728)
  }

  /** The written bytes are entry `k`'s, the counted sizes up to it and the number of entries within bounds. */
  predicate IsBounded(format: Format, entries: seq<Option<Entry>>, written: seq<Byte>, k: nat) {
    && k < |entries| && k < 4096 && (format.Zip? ==> |entries| <= 4096)
    && (forall i :: 0 <= i <= k ==> IsWithinLimits(format, entries[i]))
    && written == entries[k].value.content && |written| <= 134217728
    && CountedSum(format, entries[..k + 1]) <= 268435456
  }

  /** Whatever is extracted stayed within every limit: 32 names deep, 128 MiB an entry, 256 MiB and 4096 entries in all. */
  lemma ExtractionIsBounded(format: Format, entries: seq<Option<Entry>>, names: Names, written: seq<Byte>)
    requires Extracts(format, entries, names, written)
    ensures exists k: nat :: IsBounded(format, entries, written, k)
  {
    var k: nat :| Chosen(format, entries, names, k) && Copies(entries[k].value, written);
    forall i | 0 <= i <= k ensures IsWithinLimits(format, entries[i]) {
      SoundIsWithinLimits(format, entries[i]);
    }
    assert IsBounded(format, entries, written, k);
  }

  lemma SoundIsWithinLimits(format: Format, e: Option<Entry>)
    requires Sound(format, e)
    ensures IsWithinLimits(format, e)
  {
    var path := e.value.path.value;
    if forall i :: 0 <= i < |path| ==> path[i].Normal? {
      NormalDepth(path);
    }
  }
}
