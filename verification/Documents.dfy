/** Open and Reload of internal/lsp/client.go, syncAfterEdit of internal/cmd/run.go, and
    the process-wide caches: what the server has been told, and what an edit drops.  For
    the cache that it does not drop see Staleness. */
module Documents {
  import opened Text
  import opened EditEngine
  import opened Edits

  /** A document notification, with the file it is about. */
  datatype Note =
    | DidOpen(file: string, version: int, text: string)
    | DidChange(file: string, version: int, text: string)

  /** The notifications about one file, in order. */
  function Of(log: seq<Note>, file: string): seq<Note> {
    if log == [] then []
    else
      var earlier, last := log[..|log| - 1], log[|log| - 1];
      if last.file == file then Of(earlier, file) + [last] else Of(earlier, file)
  }

  /** One didOpen with version 1, then didChange 2, 3, 4, ... */
  predicate WellVersioned(notes: seq<Note>) {
    forall k :: 0 <= k < |notes| ==> notes[k].version == k + 1 && (notes[k].DidOpen? <==> k == 0)
  }

  /** The maps `opened` (here openSet) and `ver` and what has been sent. */
  datatype Session = Session(openSet: set<string>, ver: map<string, int>, log: seq<Note>)

  const START := Session({}, map[], [])

  /** Open of a file whose text on disk is `text` (None: unreadable). */
  function Open(s: Session, file: string, text: Option<string>): Session {
    if file in s.openSet || text.None? then s
    else Session(s.openSet + {file}, s.ver[file := 1], s.log + [DidOpen(file, 1, text.value)])
  }

  /** Reload of the same. */
  function Reload(s: Session, file: string, text: Option<string>): Session {
    if file !in s.openSet then Open(s, file, text)
    else if text.None? then s
    else
      var v := (if file in s.ver then s.ver[file] else 0) + 1;
      Session(s.openSet, s.ver[file := v], s.log + [DidChange(file, v, text.value)])
  }

  /** The log of every file is well versioned and the maps say how far it is. */
  ghost predicate Consistent(s: Session) {
    && s.ver.Keys == s.openSet
    && forall f :: WellVersioned(Of(s.log, f))
                && |Of(s.log, f)| == (if f in s.openSet then s.ver[f] else 0)
                && (f in s.openSet ==> s.ver[f] > 0)
  }

  lemma {:induction false} OfAppend(log: seq<Note>, note: Note, f: string)
    ensures Of(log + [note], f) == if note.file == f then Of(log, f) + [note] else Of(log, f)
  {
    assert (log + [note])[..|log|] == log;
  }

  /** Appending the next version of a file. */
  lemma {:induction false} NextVersion(s: Session, file: string, note: Note)
    requires Consistent(s) && note.file == file
    requires note.version == |Of(s.log, file)| + 1 && (note.DidOpen? <==> |Of(s.log, file)| == 0)
    ensures Consistent(Session(s.openSet + {file}, s.ver[file := note.version], s.log + [note]))
  {
    var t := Session(s.openSet + {file}, s.ver[file := note.version], s.log + [note]);
    forall f ensures WellVersioned(Of(t.log, f))
                  && |Of(t.log, f)| == (if f in t.openSet then t.ver[f] else 0)
                  && (f in t.openSet ==> t.ver[f] > 0)
    {
      OfAppend(s.log, note, f);
    }
  }

  lemma {:induction false} OpenKeepsConsistent(s: Session, file: string, text: Option<string>)
    requires Consistent(s)
    ensures Consistent(Open(s, file, text))
  {
    if file !in s.openSet && text.Some? {
      NextVersion(s, file, DidOpen(file, 1, text.value));
    }
  }

  lemma {:induction false} ReloadKeepsConsistent(s: Session, file: string, text: Option<string>)
    requires Consistent(s)
    ensures Consistent(Reload(s, file, text))
  {
    OpenKeepsConsistent(s, file, text);
    if file in s.openSet && text.Some? {
      assert s.openSet + {file} == s.openSet;
      NextVersion(s, file, DidChange(file, s.ver[file] + 1, text.value));
    }
  }

  // ---- every run ----

  /** A call, with what the disk held at that moment. */
  datatype Request = OpenFile(file: string, text: Option<string>) | ReloadFile(file: string, text: Option<string>)

  datatype History = Begin | Then(before: History, last: Request)

  function Run(h: History): Session {
    match h
    case Begin => START
    case Then(before, OpenFile(f, text)) => Open(Run(before), f, text)
    case Then(before, ReloadFile(f, text)) => Reload(Run(before), f, text)
  }

  lemma {:induction false} RunIsConsistent(h: History)
    ensures Consistent(Run(h))
  {
    if h.Then? {
      RunIsConsistent(h.before);
      match h.last
      case OpenFile(f, text) => OpenKeepsConsistent(Run(h.before), f, text);
      case ReloadFile(f, text) => ReloadKeepsConsistent(Run(h.before), f, text);
    }
  }

  /** Over every run of Open and Reload, whatever the disk holds, a file's outgoing log
      is one didOpen with version 1 followed by didChange 2, 3, 4, ... */
  lemma {:induction false} LogIsWellVersioned(h: History, file: string)
    ensures WellVersioned(Of(Run(h).log, file))
    ensures Of(Run(h).log, file) != [] <==> file in Run(h).openSet
  {
    RunIsConsistent(h);
  }

  /** What a request adds to the log of a file, by that log alone: nothing for another file,
      an unreadable one, or a second Open; else the text, as a didOpen if nothing has been
      sent, and as the next didChange if something has. */
  lemma {:induction false} LogGrowsExactly(h: History, e: Request, file: string)
    ensures var (notes, after) := (Of(Run(h).log, file), Of(Run(Then(h, e)).log, file));
            if e.file != file || e.text.None? || (e.OpenFile? && notes != []) then after == notes
            else if notes == [] then after == [DidOpen(file, 1, e.text.value)]
            else after == notes + [DidChange(file, |notes| + 1, e.text.value)]
  {
    RunIsConsistent(h);
    var s, t := Run(h), Run(Then(h, e));
    hide Of;
    if |t.log| == |s.log| + 1 {
      OfAppend(s.log, t.log[|s.log|], file);
      assert t.log == s.log + [t.log[|s.log|]];
    }
  }

  // ---- the client object ----

  /** os.ReadFile */
  function ReadFile(files: map<string, string>, file: string): Option<string> {
    if file in files then Some(files[file]) else None
  }

  class Client {
    var openSet: set<string>
    var ver: map<string, int>
    ghost var log: seq<Note>

    constructor ()
      ensures Value() == START
    {
      openSet, ver, log := {}, map[], [];
    }

    ghost function Value(): Session
      reads this
    {
      Session(openSet, ver, log)
    }

    method Send(note: Note)
      modifies `log
      ensures log == old(log) + [note]
    {
      log := log + [note];
    }

    method OpenFile(disk: Disk, file: string) returns (ok: bool)
      requires Consistent(Value())
      modifies this
      ensures Value() == Open(old(Value()), file, ReadFile(disk.files, file)) && Consistent(Value())
      ensures ok <==> file in old(openSet) || file in disk.files
    {
      OpenKeepsConsistent(Value(), file, ReadFile(disk.files, file));
      if file in openSet {
        return true;
      }
      if file !in disk.files {
        return false;
      }
      Send(DidOpen(file, 1, disk.files[file]));
      openSet := openSet + {file};
      ver := ver[file := 1];
      return true;
    }

    method ReloadFile(disk: Disk, file: string) returns (ok: bool)
      requires Consistent(Value())
      modifies this
      ensures Value() == Reload(old(Value()), file, ReadFile(disk.files, file)) && Consistent(Value())
      ensures ok <==> file in disk.files
    {
      ReloadKeepsConsistent(Value(), file, ReadFile(disk.files, file));
      if file !in openSet {
        ok := OpenFile(disk, file);
        return;
      }
      if file !in disk.files {
        return false;
      }
      ver := ver[file := ver[file] + 1];
      Send(DidChange(file, ver[file], disk.files[file]));
      return true;
    }
  }

  // ---- the caches ----

  /** A process-wide cache of an index built from the files under a root. */
  class Cache<T> {
    var root: string
    var index: Option<T>

    constructor ()
      ensures index == None
    {
      root, index := "", None;
    }

    method Invalidate()
      modifies this
      ensures index == None
    {
      root, index := "", None;
    }

    /** build, respectively Build; `scan` stands for buildFresh. */
    method Build(at: string, files: map<string, string>, scan: (string, map<string, string>) -> T) returns (ix: T)
      modifies this
      ensures ix == Served(old(root), old(index), at, scan(at, files))
      ensures root == at && index == Some(ix)
    {
      if index.Some? && root == at {
        return index.value;
      }
      ix := scan(at, files);
      root, index := at, Some(ix);
    }
  }

  /** What a cache answers for root `at`, where a fresh scan would give `current`. */
  function Served<T>(root: string, index: Option<T>, at: string, current: T): T {
    if index.Some? && root == at then index.value else current
  }

  // ---- after an edit ----

  /** The last text the server was told about a file. */
  function LastText(log: seq<Note>, file: string): Option<string> {
    var notes := Of(log, file);
    if notes == [] then None else Some(notes[|notes| - 1].text)
  }

  lemma {:induction false} ReloadTellsText(s: Session, file: string, text: Option<string>, f: string)
    ensures LastText(Reload(s, file, text).log, f) == if f == file && text.Some? then text else LastText(s.log, f)
  {
    hide Of;
    if text.Some? {
      var t := Reload(s, file, text);
      assert t.log == s.log + [t.log[|t.log| - 1]];
      OfAppend(s.log, t.log[|t.log| - 1], f);
    }
  }

  /** syncAfterEdit: reload every edited file, in any order, and drop the fn-pointer
      cache.  The definition index's cache is not touched. */
  method SyncAfterEdit<T>(client: Client, disk: Disk, edits: map<string, seq<Edit>>, fnptr: Cache<T>)
    requires Consistent(client.Value())
    modifies client, fnptr
    ensures Consistent(client.Value())
    ensures forall f :: f in edits && f in disk.files ==> LastText(client.log, f) == Some(disk.files[f])
    ensures forall f :: f !in edits || f !in disk.files ==> LastText(client.log, f) == old(LastText(client.log, f))
    ensures fnptr.index == None
  {
    hide Consistent, LastText, Reload, Rewritten;
    var todo := edits.Keys;
    ghost var files := disk.files;
    while todo != {}
      invariant todo <= edits.Keys && disk.files == files && Consistent(client.Value())
      invariant forall f :: f in edits.Keys - todo && f in files ==> LastText(client.log, f) == Some(files[f])
      invariant forall f :: f !in edits.Keys - todo || f !in files ==>
                  LastText(client.log, f) == old(LastText(client.log, f))
    {
      var file :| file in todo;
      todo := todo - {file};
      ghost var before := client.Value();
      var ok := client.ReloadFile(disk, file);
      ghost var text := ReadFile(files, file);
      forall f ensures LastText(client.log, f) == if f == file && text.Some? then text else LastText(before.log, f) {
        ReloadTellsText(before, file, text, f);
      }
    }
    fnptr.Invalidate();
  }

  /** The server has been told another text of the file than the disk holds.  A file it has
      not been told about it reads from the disk. */
  predicate Misled(log: seq<Note>, files: map<string, string>, f: string) {
    LastText(log, f).Some? && f in files && LastText(log, f).value != files[f]
  }

  /** Applying edits and syncing: the server has been told the disk text of every edited
      file, and the next fn-pointer index is a fresh scan of the disk.  On an error nothing
      is synced although the files of `done` are rewritten: of the files the server was right
      about it is then wrong about exactly those of `done` whose text has changed and that
      it had been told.  The cache of the definition index is left as it was. */
  method ApplyAndSync<T, D>(client: Client, disk: Disk, edits: map<string, seq<Edit>>, fnptr: Cache<T>, defs: Cache<D>)
    returns (total: nat, err: bool, ghost done: set<string>)
    requires Consistent(client.Value())
    requires forall f :: f in edits ==> AllUnsigned(edits[f])
    requires fnptr as object != defs as object
    modifies client, fnptr, disk`files
    ensures Rewritten(old(disk.files), disk.files, edits, done) && (!err ==> done == edits.Keys)
    ensures !err ==> forall f :: f in edits ==> f in disk.files && LastText(client.log, f) == Some(disk.files[f])
    ensures !err ==> forall at: string, current: T :: Served(fnptr.root, fnptr.index, at, current) == current
    ensures err ==> client.Value() == old(client.Value()) && fnptr.index == old(fnptr.index)
    ensures err ==> forall f :: f in disk.files && !Misled(old(client.log), old(disk.files), f) ==>
              (Misled(client.log, disk.files, f)
               <==> f in done && LastText(old(client.log), f).Some? && disk.files[f] != old(disk.files)[f])
    ensures defs.root == old(defs.root) && defs.index == old(defs.index)
  {
    total, err, done := ApplyEdits(disk, edits);
    if err {
      return;
    }
    SyncAfterEdit(client, disk, edits, fnptr);
  }
}
