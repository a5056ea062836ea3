/** `main`: the crawl over the searched repositories, their Python files and the
    blocks cut from each file, writing one keyed record per block under a global cap
    and a per-repository cap. Each record write is modelled as appending an entry to
    the session; the network answers (tree listing, file contents) and the parser are
    inputs bundled in `Remote`. */
module Collector {

  import opened Wrappers
  import opened Text
  import opened Http
  import Seqs
  import Extractor
  import Search

  const TARGET_LICENSE: string := "mit"
  const TARGET_LANGUAGE: string := "python"
  const MAX_CODE_BLOCKS := 2500
  const MAX_BLOCKS_PER_REPO := 50
  /** At most this many Python files of a repository are read. */
  const MAX_FILES_PER_REPO := 30
  /** `main` asks the search for this many repositories. */
  const SEARCH_MAX_REPOS := 100
  const SOURCE_PREFIX: string := "github_repo:"
  const PY_SUFFIX: string := ".py"
  const BLOB: string := "blob"

  /** One entry of a recursive tree listing. */
  datatype TreeItem = TreeItem(path: string, kind: string)

  /** The JSON object written for one block. */
  datatype Record = Record(code: string, source: string, file: string, license: string, language: string)

  /** A written record and the number in its output name, `human_<key>.json`. */
  datatype Entry = Entry(key: nat, record: Record)

  /** The crawl's running state: `collected_count`, `file_index` and what has been
      written so far. */
  datatype Session = Session(collected: nat, fileIndex: nat, written: seq<Entry>)

  /** The answers from outside: the tree listing for a repository name (after the
      default-branch lookup, retried once on 403, `None` when the JSON has no `tree`),
      the decoded contents of a file (`None` on any failure), and the parser. */
  datatype Remote = Remote(
    trees: string -> Exchange<Option<seq<TreeItem>>>,
    contents: (string, string) -> Option<string>,
    parse: string -> Extractor.ParseOutcome)

  const Initial := Session(0, 1, [])

  /** The session invariant: the counters agree with what was written, the global cap
      holds, and the keys written so far are exactly 1, 2, ..., n in order. */
  predicate Valid(s: Session) {
    && s.collected == |s.written|
    && s.fileIndex == s.collected + 1
    && s.collected <= MAX_CODE_BLOCKS
    && forall k :: 0 <= k < |s.written| ==> s.written[k].key == k + 1
  }

  // ---------------------------------------------------------------------------
  // Files to read
  // ---------------------------------------------------------------------------

  predicate IsPyFile(item: TreeItem) {
    item.kind == BLOB && EndsWith(item.path, PY_SUFFIX)
  }

  /** The paths of the `blob` entries ending in ".py", in listing order. */
  function PyFiles(tree: seq<TreeItem>): (r: seq<string>)
    ensures |r| <= |tree|
    ensures forall k :: 0 <= k < |r| ==> EndsWith(r[k], PY_SUFFIX)
  {
    if tree == [] then []
    else
      var last := tree[|tree| - 1];
      PyFiles(tree[..|tree| - 1]) + (if IsPyFile(last) then [last.path] else [])
  }

  /** The kept paths are exactly those of the Python blob entries, in listing order. */
  lemma {:induction false} PyFilesInTreeOrder(tree: seq<TreeItem>)
    ensures |PyFiles(tree)| == |Seqs.Selected(tree, IsPyFile)|
    ensures forall k :: 0 <= k < |PyFiles(tree)| ==>
      PyFiles(tree)[k] == tree[Seqs.Selected(tree, IsPyFile)[k]].path
  {
    if tree != [] {
      var init := tree[..|tree| - 1];
      PyFilesInTreeOrder(init);
      var idx := Seqs.Selected(init, IsPyFile);
      var paths := PyFiles(init);
      var last := tree[|tree| - 1];
      forall k | 0 <= k < |idx| ensures tree[idx[k]] == init[idx[k]] { }
      if IsPyFile(last) {
        assert Seqs.Selected(tree, IsPyFile) == idx + [|tree| - 1];
        assert PyFiles(tree) == paths + [last.path];
      } else {
        assert Seqs.Selected(tree, IsPyFile) == idx;
        assert PyFiles(tree) == paths;
      }
    }
  }

  /** `py_files[:30]`. */
  function ScanList(tree: seq<TreeItem>): (r: seq<string>)
    ensures |r| <= MAX_FILES_PER_REPO
    ensures r <= PyFiles(tree)
    ensures |r| == if |PyFiles(tree)| < MAX_FILES_PER_REPO then |PyFiles(tree)| else MAX_FILES_PER_REPO
    ensures |PyFiles(tree)| <= MAX_FILES_PER_REPO ==> r == PyFiles(tree)
  {
    Seqs.Take(PyFiles(tree), MAX_FILES_PER_REPO)
  }

  /** The files a repository contributes, or `None` when it is skipped: a final status
      other than 200, or a listing without a `tree`. */
  function Listing(remote: Remote, name: string): (r: Option<seq<string>>)
    ensures r.Some? ==> |r.value| <= MAX_FILES_PER_REPO
    ensures r.Some? ==> forall k :: 0 <= k < |r.value| ==> EndsWith(r.value[k], PY_SUFFIX)
    ensures r.Some? <==> Final(remote.trees(name)).status == OK && Final(remote.trees(name)).body.Some?
    ensures r.Some? ==> r.value <= PyFiles(Final(remote.trees(name)).body.value)
    ensures r.Some? ==> (var n := |PyFiles(Final(remote.trees(name)).body.value)|;
      |r.value| == if n < MAX_FILES_PER_REPO then n else MAX_FILES_PER_REPO)
  {
    var response := Final(remote.trees(name));
    if response.status != OK then None
    else if response.body.None? then None
    else Some(ScanList(response.body.value))
  }

  // ---------------------------------------------------------------------------
  // Records
  // ---------------------------------------------------------------------------

  /** The blocks of one file: none when its contents could not be fetched or are
      empty (`if code_content:`), whatever the parser would say of the empty text,
      otherwise what the extractor gives for the tag "python". */
  function FileBlocks(remote: Remote, name: string, path: string): (r: seq<string>)
    ensures remote.contents(name, path).None? ==> r == []
    ensures remote.contents(name, path) == Some([]) ==> r == []
    ensures forall k :: 0 <= k < |r| ==> Trimmed(r[k])
    ensures remote.contents(name, path).Some? && remote.contents(name, path).value != [] ==>
      r == Extractor.ExtractCodeBlocks(remote.contents(name, path).value, TARGET_LANGUAGE, remote.parse)
  {
    match remote.contents(name, path)
    case None => []
    case Some(content) =>
      if content == [] then [] else Extractor.ExtractCodeBlocks(content, TARGET_LANGUAGE, remote.parse)
  }

  /** Where each file's blocks come from in the crawl: its fetched contents, cut by
      the extractor. */
  function FileBlocksOf(remote: Remote, name: string): string -> seq<string> {
    path => FileBlocks(remote, name, path)
  }

  function SourceOf(name: string): string {
    SOURCE_PREFIX + name
  }

  /** `TARGET_LICENSE.upper()`, the license field of every record. */
  function LicenseTag(): (r: string)
    ensures r == "MIT"
  {
    assert Upper(TARGET_LICENSE)[0] == 'M' && Upper(TARGET_LICENSE)[1] == 'I' && Upper(TARGET_LICENSE)[2] == 'T';
    Upper(TARGET_LICENSE)
  }

  function MakeRecord(name: string, path: string, block: string): Record {
    Record(block, SourceOf(name), path, LicenseTag(), TARGET_LANGUAGE)
  }

  function FileRecords(name: string, path: string, blocks: seq<string>): seq<Record> {
    seq(|blocks|, i requires 0 <= i < |blocks| => MakeRecord(name, path, blocks[i]))
  }

  /** Every record a repository would give with no cap: each block of each file, in
      file order and then block order, `blocksOf` giving the blocks of a file. */
  function Candidates(name: string, files: seq<string>, blocksOf: string -> seq<string>): (r: seq<Record>)
    ensures forall k :: 0 <= k < |r| ==>
      && r[k].source == SourceOf(name)
      && r[k].license == LicenseTag()
      && r[k].language == TARGET_LANGUAGE
  {
    if files == [] then []
    else
      var last := files[|files| - 1];
      Candidates(name, files[..|files| - 1], blocksOf) + FileRecords(name, last, blocksOf(last))
  }

  /** A record and the file it names: the file is one of those read, and the code is
      one of that file's blocks. */
  predicate FromFileOf(record: Record, files: seq<string>, blocksOf: string -> seq<string>) {
    record.file in files && record.code in blocksOf(record.file)
  }

  /** Every record comes from one of the listed files and carries one of the blocks
      cut from that file. */
  lemma {:induction false} CandidatesFromFiles(name: string, files: seq<string>, blocksOf: string -> seq<string>)
    ensures forall k :: 0 <= k < |Candidates(name, files, blocksOf)| ==>
      FromFileOf(Candidates(name, files, blocksOf)[k], files, blocksOf)
  {
    if files != [] {
      var init := files[..|files| - 1];
      var last := files[|files| - 1];
      CandidatesFromFiles(name, init, blocksOf);
      var earlier := Candidates(name, init, blocksOf);
      var added := FileRecords(name, last, blocksOf(last));
      assert Candidates(name, files, blocksOf) == earlier + added;
      forall k | 0 <= k < |earlier| ensures FromFileOf(earlier[k], files, blocksOf) {
        assert FromFileOf(earlier[k], init, blocksOf);
        var j :| 0 <= j < |init| && init[j] == earlier[k].file;
        assert files[j] == earlier[k].file;
      }
      forall k | 0 <= k < |added| ensures FromFileOf(added[k], files, blocksOf) {
        assert added[k].file == last && added[k].code == blocksOf(last)[k];
      }
    }
  }

  /** One more file adds its records after those of the files before it. */
  lemma CandidatesStep(name: string, files: seq<string>, blocksOf: string -> seq<string>, i: nat)
    requires i < |files|
    ensures Candidates(name, files[..i + 1], blocksOf)
      == Candidates(name, files[..i], blocksOf) + FileRecords(name, files[i], blocksOf(files[i]))
  {
    assert files[..i + 1][..i] == files[..i];
  }

  /** Reading fewer files gives a prefix of the records. */
  lemma {:induction false} CandidatesPrefix(name: string, files: seq<string>, blocksOf: string -> seq<string>, i: nat)
    requires i <= |files|
    ensures Candidates(name, files[..i], blocksOf) <= Candidates(name, files, blocksOf)
    decreases |files| - i
  {
    if i < |files| {
      var init := files[..|files| - 1];
      assert files[..i] == init[..i];
      CandidatesPrefix(name, init, blocksOf, i);
    } else {
      assert files[..i] == files;
    }
  }

  // ---------------------------------------------------------------------------
  // Writing under the caps
  // ---------------------------------------------------------------------------

  /** How many more records may be written: neither cap reached yet, and the nearer of
      the two limits. */
  function Room(collected: nat, current: nat): (n: nat)
    ensures collected + n <= MAX_CODE_BLOCKS || n == 0
    ensures current + n <= MAX_BLOCKS_PER_REPO || n == 0
    ensures n == 0 <==> collected >= MAX_CODE_BLOCKS || current >= MAX_BLOCKS_PER_REPO
    ensures n > 0 ==> collected + n == MAX_CODE_BLOCKS || current + n == MAX_BLOCKS_PER_REPO
  {
    if collected >= MAX_CODE_BLOCKS || current >= MAX_BLOCKS_PER_REPO then 0
    else if MAX_CODE_BLOCKS - collected < MAX_BLOCKS_PER_REPO - current then MAX_CODE_BLOCKS - collected
    else MAX_BLOCKS_PER_REPO - current
  }

  /** The room left in a repository after `current` writes is what was left at its
      start less those writes. */
  lemma RoomAfter(collected: nat, current: nat)
    requires current < Room(collected, 0)
    ensures Room(collected + current, current) == Room(collected, 0) - current
  {
  }

  /** Below both caps, the room a repository started with is not used up yet. */
  lemma RoomLeft(collected: nat, current: nat)
    requires collected + current < MAX_CODE_BLOCKS && current < MAX_BLOCKS_PER_REPO
    ensures current < Room(collected, 0)
  {
  }

  /** Taking `n` of a sequence whose first part is shorter than `n` keeps that part
      whole. */
  lemma TakeAfterFull<T>(first: seq<T>, more: seq<T>, n: nat)
    requires |first| <= n
    ensures Seqs.Take(first + more, n) == first + Seqs.Take(more, n - |first|)
  {
  }

  /** Records numbered from `start` on. */
  function Keyed(start: nat, records: seq<Record>): seq<Entry> {
    seq(|records|, i requires 0 <= i < |records| => Entry(start + i, records[i]))
  }

  /** The session after writing one record: the next key, then both counters up by one. */
  function Write(s: Session, record: Record): (r: Session)
    ensures Valid(s) && s.collected < MAX_CODE_BLOCKS ==> Valid(r)
    ensures |r.written| == |s.written| + 1
    ensures r.written[..|s.written|] == s.written && r.written[|s.written|].record == record
    ensures r.written[|s.written|].key == s.fileIndex
  {
    Session(s.collected + 1, s.fileIndex + 1, s.written + [Entry(s.fileIndex, record)])
  }

  /** The session after writing `records` one by one. */
  function Append(s: Session, records: seq<Record>): (r: Session)
    ensures Valid(s) && s.collected + |records| <= MAX_CODE_BLOCKS ==> Valid(r)
    ensures |s.written| <= |r.written| && r.written[..|s.written|] == s.written
  {
    Session(s.collected + |records|, s.fileIndex + |records|, s.written + Keyed(s.fileIndex, records))
  }

  /** Writing the records one at a time is writing them all. */
  lemma AppendStep(s: Session, records: seq<Record>, i: nat)
    requires i < |records|
    ensures Append(s, records[..i + 1]) == Write(Append(s, records[..i]), records[i])
  {
    assert Keyed(s.fileIndex, records[..i + 1]) == Keyed(s.fileIndex, records[..i]) + [Entry(s.fileIndex + i, records[i])];
  }

  lemma AppendTwice(s: Session, a: seq<Record>, b: seq<Record>)
    ensures Append(Append(s, a), b) == Append(s, a + b)
  {
    assert Keyed(s.fileIndex, a) + Keyed(s.fileIndex + |a|, b) == Keyed(s.fileIndex, a + b);
  }

  /** The state of the write loop after `i` blocks: the first `i` records are
      written, within the room there was, and `current` counts them. */
  predicate BlocksWritten(s: Session, current: nat, records: seq<Record>, i: nat, s': Session, current': nat) {
    && i <= |records| && i <= Room(s.collected, current)
    && s' == Append(s, records[..i])
    && current' == current + i
  }

  /** Writing the records of one file's blocks: both caps are checked before every
      write, so exactly as many of the first blocks are written as there is room for. */
  method WriteBlocks(s: Session, current: nat, name: string, path: string, blocks: seq<string>)
    returns (s': Session, current': nat)
    requires Valid(s)
    ensures Valid(s')
    ensures s' == Append(s, Seqs.Take(FileRecords(name, path, blocks), Room(s.collected, current)))
    ensures current' == current + (s'.collected - s.collected)
  {
    ghost var records := FileRecords(name, path, blocks);
    s' := s;
    current' := current;
    var i := 0;
    while i < |blocks|
      invariant BlocksWritten(s, current, records, i, s', current')
    {
      if s'.collected >= MAX_CODE_BLOCKS || current' >= MAX_BLOCKS_PER_REPO {
        break;
      }
      var record := Record(blocks[i], SOURCE_PREFIX + name, path, Upper(TARGET_LICENSE), TARGET_LANGUAGE);
      assert record == records[i];
      WriteStep(s, current, records, i, s', current');
      s' := Write(s', record);
      current' := current' + 1;
      i := i + 1;
    }
    WriteDone(s, current, records, i, s', current');
  }

  /** One write below both caps keeps the write loop's state. */
  lemma WriteStep(s: Session, current: nat, records: seq<Record>, i: nat, s': Session, current': nat)
    requires BlocksWritten(s, current, records, i, s', current') && i < |records|
    requires s'.collected < MAX_CODE_BLOCKS && current' < MAX_BLOCKS_PER_REPO
    ensures BlocksWritten(s, current, records, i + 1, Write(s', records[i]), current' + 1)
  {
    RoomShrinks(s.collected, current, i);
    AppendStep(s, records, i);
  }

  /** The room left after `i` writes is what was left before them less `i`. */
  lemma RoomShrinks(collected: nat, current: nat, i: nat)
    requires i <= Room(collected, current)
    ensures Room(collected + i, current + i) == Room(collected, current) - i
  {
  }

  /** The write loop stops at the end of the blocks or once a cap is reached, and by
      then it has written the capped prefix of the records. */
  lemma WriteDone(s: Session, current: nat, records: seq<Record>, i: nat, s': Session, current': nat)
    requires Valid(s) && BlocksWritten(s, current, records, i, s', current')
    requires i < |records| ==> s'.collected >= MAX_CODE_BLOCKS || current' >= MAX_BLOCKS_PER_REPO
    ensures Valid(s')
    ensures s' == Append(s, Seqs.Take(records, Room(s.collected, current)))
    ensures current' == current + (s'.collected - s.collected)
  {
    if i == |records| {
      assert records[..i] == records;
    }
  }

  /** Writing the capped part of one more run of records after a shorter run that
      was written whole is writing the capped part of both runs. */
  lemma AppendCapped(s: Session, before: seq<Record>, more: seq<Record>)
    requires |before| < Room(s.collected, 0)
    ensures Append(Append(s, before), Seqs.Take(more, Room(s.collected + |before|, |before|)))
      == Append(s, Seqs.Take(before + more, Room(s.collected, 0)))
  {
    var room := Room(s.collected, 0);
    RoomAfter(s.collected, |before|);
    AppendTwice(s, before, Seqs.Take(more, room - |before|));
    TakeAfterFull(before, more, room);
  }

  /** The state of the file loop after `i` files: the session holds the capped prefix
      of those files' records, and `current` counts what this repository added. */
  predicate FilesRead(s: Session, name: string, files: seq<string>, blocksOf: string -> seq<string>, i: nat, s': Session, current: nat) {
    && i <= |files|
    && s' == Append(s, Seqs.Take(Candidates(name, files[..i], blocksOf), Room(s.collected, 0)))
    && current == s'.collected - s.collected <= Room(s.collected, 0)
  }

  /** At the start of a file, with neither cap reached, the records so far were all
      written: the room was not used up. */
  lemma FileStart(s: Session, before: seq<Record>, s1: Session, c1: nat)
    requires s1 == Append(s, Seqs.Take(before, Room(s.collected, 0)))
    requires c1 == s1.collected - s.collected
    requires s1.collected < MAX_CODE_BLOCKS && c1 < MAX_BLOCKS_PER_REPO
    ensures |before| < Room(s.collected, 0)
    ensures s1 == Append(s, before) && c1 == |before|
  {
    var taken := Seqs.Take(before, Room(s.collected, 0));
    RoomLeft(s.collected, |taken|);
    assert taken == before;
  }

  /** One more file in the repository loop: with neither cap reached, what the
      file's write adds to what the earlier files wrote is the capped prefix of the
      records up to that file. */
  lemma ProcessStep(s: Session, name: string, files: seq<string>, blocksOf: string -> seq<string>, i: nat,
                    s1: Session, c1: nat, s2: Session, c2: nat)
    requires i < |files| && FilesRead(s, name, files, blocksOf, i, s1, c1)
    requires s1.collected < MAX_CODE_BLOCKS && c1 < MAX_BLOCKS_PER_REPO
    requires s2 == Append(s1, Seqs.Take(FileRecords(name, files[i], blocksOf(files[i])), Room(s1.collected, c1)))
    requires c2 == c1 + (s2.collected - s1.collected)
    ensures FilesRead(s, name, files, blocksOf, i + 1, s2, c2)
  {
    CandidatesStep(name, files, blocksOf, i);
    CappedStep(s, Candidates(name, files[..i], blocksOf), FileRecords(name, files[i], blocksOf(files[i])),
               Candidates(name, files[..i + 1], blocksOf), s1, c1, s2, c2);
  }

  /** The capped write of one more run of records, made while neither cap is reached:
      the session then holds the capped prefix of all the records so far. */
  lemma CappedStep(s: Session, before: seq<Record>, more: seq<Record>, next: seq<Record>,
                   s1: Session, c1: nat, s2: Session, c2: nat)
    requires next == before + more
    requires s1 == Append(s, Seqs.Take(before, Room(s.collected, 0))) && c1 == s1.collected - s.collected
    requires s1.collected < MAX_CODE_BLOCKS && c1 < MAX_BLOCKS_PER_REPO
    requires s2 == Append(s1, Seqs.Take(more, Room(s1.collected, c1)))
    requires c2 == c1 + (s2.collected - s1.collected)
    ensures s2 == Append(s, Seqs.Take(next, Room(s.collected, 0)))
    ensures c2 == s2.collected - s.collected <= Room(s.collected, 0)
  {
    FileStart(s, before, s1, c1);
    AppendCapped(s, before, more);
  }

  /** The file loop of one repository: files are read in order while neither cap is
      reached, so the repository's output is the first `Room(collected, 0)` of its
      uncapped records. `blocksOf` fetches a file and cuts it into blocks. */
  method ProcessFiles(s: Session, name: string, files: seq<string>, blocksOf: string -> seq<string>)
    returns (s': Session, current: nat)
    requires Valid(s)
    ensures Valid(s')
    ensures s' == Append(s, Seqs.Take(Candidates(name, files, blocksOf), Room(s.collected, 0)))
    ensures current == s'.collected - s.collected <= MAX_BLOCKS_PER_REPO
  {
    s' := s;
    current := 0;
    var i := 0;
    while i < |files|
      invariant Valid(s')
      invariant FilesRead(s, name, files, blocksOf, i, s', current)
    {
      if s'.collected >= MAX_CODE_BLOCKS || current >= MAX_BLOCKS_PER_REPO {
        break;
      }
      var path := files[i];
      var blocks := blocksOf(path);
      ghost var s1, c1 := s', current;
      s', current := WriteBlocks(s', current, name, path, blocks);
      ProcessStep(s, name, files, blocksOf, i, s1, c1, s', current);
      i := i + 1;
    }
    ProcessDone(s, name, files, blocksOf, i);
  }

  /** The file loop may stop early only once the room is used up, and then the
      remaining files change nothing. */
  lemma ProcessDone(s: Session, name: string, files: seq<string>, blocksOf: string -> seq<string>, i: nat)
    requires i <= |files|
    requires i < |files| ==> |Seqs.Take(Candidates(name, files[..i], blocksOf), Room(s.collected, 0))| == Room(s.collected, 0)
    ensures Seqs.Take(Candidates(name, files[..i], blocksOf), Room(s.collected, 0))
      == Seqs.Take(Candidates(name, files, blocksOf), Room(s.collected, 0))
  {
    CandidatesPrefix(name, files, blocksOf, i);
    if i == |files| {
      assert files[..i] == files;
    }
    TakeOfPrefix(Candidates(name, files[..i], blocksOf), Candidates(name, files, blocksOf), Room(s.collected, 0));
  }

  /** A prefix that already fills the first `n` places has the same first `n`
      elements as the whole. */
  lemma TakeOfPrefix<T>(a: seq<T>, b: seq<T>, n: nat)
    requires a <= b && (a == b || |Seqs.Take(a, n)| == n)
    ensures Seqs.Take(a, n) == Seqs.Take(b, n)
  {
    if a != b {
      assert a[..n] == b[..n];
    }
  }

  /** Where a record written for repository `name` comes from: it names the
      repository, carries the license and language tags, and its code is a block of
      one of the ".py" files listed for that repository. */
  predicate FromRepo(remote: Remote, record: Record, name: string) {
    && record.source == SourceOf(name)
    && record.license == LicenseTag()
    && record.language == TARGET_LANGUAGE
    && EndsWith(record.file, PY_SUFFIX)
    && Listing(remote, name).Some?
    && FromFileOf(record, Listing(remote, name).value, FileBlocksOf(remote, name))
  }

  /** One repository of the reference run: skipped when its listing failed, otherwise
      its listed files give the first `Room(collected, 0)` of their records. */
  function VisitRepo(remote: Remote, s: Session, name: string): (r: Session)
    requires Valid(s)
    ensures Valid(r)
    ensures |s.written| <= |r.written| && r.written[..|s.written|] == s.written
    ensures r.collected - s.collected <= MAX_BLOCKS_PER_REPO
    ensures forall k :: |s.written| <= k < |r.written| ==> FromRepo(remote, r.written[k].record, name)
  {
    match Listing(remote, name)
    case None => s
    case Some(files) =>
      var records := Seqs.Take(Candidates(name, files, FileBlocksOf(remote, name)), Room(s.collected, 0));
      CandidatesFromFiles(name, files, FileBlocksOf(remote, name));
      Append(s, records)
  }

  /** The reference run: the repositories in search order, until the global cap is
      reached. */
  function Harvest(remote: Remote, s: Session, repos: seq<Search.Repo>): (r: Session)
    requires Valid(s)
    ensures Valid(r)
    ensures |s.written| <= |r.written| && r.written[..|s.written|] == s.written
    decreases |repos|
  {
    if repos == [] || s.collected >= MAX_CODE_BLOCKS then s
    else Harvest(remote, VisitRepo(remote, s, repos[0].fullName), repos[1..])
  }

  /** A record comes from one of the searched repositories. */
  predicate Attributed(remote: Remote, record: Record, repos: seq<Search.Repo>) {
    exists j :: 0 <= j < |repos| && FromRepo(remote, record, repos[j].fullName)
  }

  /** The entries from position `from` on are all attributed to one of `repos`. */
  predicate AttributedFrom(remote: Remote, written: seq<Entry>, from: nat, repos: seq<Search.Repo>) {
    forall k :: from <= k < |written| ==> Attributed(remote, written[k].record, repos)
  }

  /** Each record the run writes comes from one of the searched repositories: it names
      that repository as its source, is tagged with the license and language, and its
      code is a block of one of the ".py" files listed for that repository. */
  lemma {:induction false} HarvestAttributed(remote: Remote, s: Session, repos: seq<Search.Repo>)
    requires Valid(s)
    ensures AttributedFrom(remote, Harvest(remote, s, repos).written, |s.written|, repos)
    decreases |repos|
  {
    if repos != [] && s.collected < MAX_CODE_BLOCKS {
      var next := VisitRepo(remote, s, repos[0].fullName);
      HarvestAttributed(remote, next, repos[1..]);
      var r := Harvest(remote, next, repos[1..]);
      assert Harvest(remote, s, repos) == r;
      assert AttributedFrom(remote, r.written, |next.written|, repos[1..]);
      forall k | |s.written| <= k < |r.written| ensures Attributed(remote, r.written[k].record, repos) {
        if k < |next.written| {
          assert r.written[k] == r.written[..|next.written|][k] == next.written[k];
          AttributedToFirst(remote, r.written[k].record, repos);
        } else {
          assert Attributed(remote, r.written[k].record, repos[1..]);
          AttributedToLater(remote, r.written[k].record, repos);
        }
      }
    }
  }

  lemma AttributedToFirst(remote: Remote, record: Record, repos: seq<Search.Repo>)
    requires |repos| > 0 && FromRepo(remote, record, repos[0].fullName)
    ensures Attributed(remote, record, repos)
  {
  }

  lemma AttributedToLater(remote: Remote, record: Record, repos: seq<Search.Repo>)
    requires |repos| > 0 && Attributed(remote, record, repos[1..])
    ensures Attributed(remote, record, repos)
  {
    var j :| 0 <= j < |repos[1..]| && FromRepo(remote, record, repos[1..][j].fullName);
    assert repos[1..][j] == repos[j + 1];
  }

  /** The state of the repository loop after `i` repositories: the rest of the
      reference run from here is the whole run, and `counts` holds one capped count
      per repository visited, adding up to what was written. */
  predicate ReposRead(remote: Remote, repos: seq<Search.Repo>, i: nat, s: Session, counts: seq<nat>) {
    && i <= |repos| && |counts| == i
    && Valid(s)
    && Harvest(remote, s, repos[i..]) == Harvest(remote, Initial, repos)
    && (forall k :: 0 <= k < |counts| ==> counts[k] <= MAX_BLOCKS_PER_REPO)
    && Seqs.Sum(counts) == s.collected
  }

  /** One step of the repository loop is one repository of the reference run. */
  lemma RepoStep(remote: Remote, s: Session, repos: seq<Search.Repo>, i: nat, s2: Session)
    requires Valid(s) && s.collected < MAX_CODE_BLOCKS && i < |repos|
    requires s2 == VisitRepo(remote, s, repos[i].fullName)
    ensures Harvest(remote, s2, repos[i + 1..]) == Harvest(remote, s, repos[i..])
  {
    assert repos[i..][0] == repos[i] && repos[i..][1..] == repos[i + 1..];
  }

  /** One more repository, skipped or read, keeps the loop state. */
  lemma CollectStep(remote: Remote, repos: seq<Search.Repo>, i: nat, s: Session, counts: seq<nat>,
                    s2: Session, current: nat)
    requires i < |repos| && ReposRead(remote, repos, i, s, counts) && s.collected < MAX_CODE_BLOCKS
    requires Listing(remote, repos[i].fullName).None? ==> s2 == s && current == 0
    requires Listing(remote, repos[i].fullName).Some? ==>
      && Valid(s2)
      && s2 == Append(s, Seqs.Take(Candidates(repos[i].fullName, Listing(remote, repos[i].fullName).value, FileBlocksOf(remote, repos[i].fullName)), Room(s.collected, 0)))
      && current == s2.collected - s.collected <= MAX_BLOCKS_PER_REPO
    ensures ReposRead(remote, repos, i + 1, s2, counts + [current])
  {
    assert s2 == VisitRepo(remote, s, repos[i].fullName);
    RepoStep(remote, s, repos, i, s2);
    assert (counts + [current])[..|counts|] == counts;
  }

  /** The repository loop of `main`: stops once the global cap is reached, skips a
      repository whose listing failed, and otherwise reads its files. `counts` holds
      `current_repo_blocks` for each repository visited. What it writes is the
      reference run, so `Harvest` and `HarvestAttributed` describe it. */
  method Collect(remote: Remote, repos: seq<Search.Repo>) returns (s: Session, counts: seq<nat>)
    ensures s == Harvest(remote, Initial, repos)
    ensures |counts| <= |repos|
    ensures forall k :: 0 <= k < |counts| ==> counts[k] <= MAX_BLOCKS_PER_REPO
    ensures Seqs.Sum(counts) == s.collected
  {
    s := Initial;
    counts := [];
    var i := 0;
    assert repos[0..] == repos;
    while i < |repos|
      invariant ReposRead(remote, repos, i, s, counts)
    {
      if s.collected >= MAX_CODE_BLOCKS {
        break;
      }
      var name := repos[i].fullName;
      var current := 0;
      var listing := Listing(remote, name);
      ghost var before := s;
      if listing.Some? {
        s, current := ProcessFiles(s, name, listing.value, FileBlocksOf(remote, name));
      }
      CollectStep(remote, repos, i, before, counts, s, current);
      counts := counts + [current];
      i := i + 1;
    }
    assert i == |repos| ==> repos[i..] == [];
  }

  /** `main` after the output directory and the quota check: search for 100
      repositories (one page) and, if any were found, crawl them. */
  method Crawl(pages: int -> Exchange<seq<Search.Repo>>, remote: Remote)
    returns (repos: seq<Search.Repo>, s: Session, counts: seq<nat>)
    ensures repos == if Search.PageOk(Final(pages(1))) then Final(pages(1)).body else []
    ensures s == Harvest(remote, Initial, repos)
    ensures forall k :: 0 <= k < |counts| ==> counts[k] <= MAX_BLOCKS_PER_REPO
    ensures Seqs.Sum(counts) == s.collected
  {
    var requested;
    repos, requested := Search.SearchRepos(SEARCH_MAX_REPOS, pages);
    assert Search.PagesNeeded(SEARCH_MAX_REPOS) == 1;
    if repos == [] {
      return repos, Initial, [];
    }
    s, counts := Collect(remote, repos);
  }
}
