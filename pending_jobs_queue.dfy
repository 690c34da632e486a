/** The persistent list of remote job ids whose processing status is still pending
    (lib/python/pycstbox/dwh/pending_jobs_queue.py). */
module PendingJobs {
  import opened Wrappers
  import opened Text
  import opened Storage

  /** `PendingJobsQueue.DEFAULT_PATH` */
  const DefaultPath: string := "/var/db/cstbox/openrj.jobs"

  /** A job id as handed to the queue: the server returns numbers, callers may pass text. */
  datatype JobId = IntId(n: int) | StrId(s: string)

  /** `str(job_id)`: the queue stores and compares ids as text. */
  function Str(id: JobId): string
  {
    match id
    case IntId(n) => IntToString(n)
    case StrId(s) => s
  }

  /** What `save` writes for the list `ids`: `'\n'.join(ids)`. */
  function SavedContent(ids: seq<string>): string
  {
    Join(ids, '\n')
  }

  /** Each line, stripped. */
  function StripAll(lines: seq<string>): seq<string>
  {
    if lines == [] then [] else [Strip(lines[0])] + StripAll(lines[1..])
  }

  lemma {:induction false} StripAllSnoc(lines: seq<string>, line: string)
    ensures StripAll(lines + [line]) == StripAll(lines) + [Strip(line)]
  {
    if lines != [] {
      assert (lines + [line])[1..] == lines[1..] + [line];
      StripAllSnoc(lines[1..], line);
    }
  }

  /** What `load` reads back from a file holding `content`. */
  function LoadedIds(content: string): seq<string>
  {
    StripAll(FileLines(content))
  }

  /** An id that a line of the file can carry unchanged. */
  predicate Storable(id: string)
  {
    '\n' !in id && NoEdgeSpace(id)
  }

  /** A list that survives `save` then `load`: storable ids, the last one not empty
      (an empty last id leaves only a trailing newline, which reads back as nothing). */
  predicate Reloadable(ids: seq<string>)
  {
    (forall k :: 0 <= k < |ids| ==> Storable(ids[k])) && (ids != [] ==> ids[|ids| - 1] != "")
  }

  lemma {:induction false} FileLinesOfSaved(ids: seq<string>)
    requires |ids| >= 2 && '\n' !in ids[0]
    ensures FileLines(SavedContent(ids)) == [ids[0] + "\n"] + FileLines(SavedContent(ids[1..]))
  {
    var s := SavedContent(ids);
    var rest := SavedContent(ids[1..]);
    assert s == ids[0] + "\n" + rest;
    assert s[|ids[0]|] == '\n';
    var i := IndexOf(s, '\n');
    assert i == |ids[0]| by {
      assert forall j :: 0 <= j < |ids[0]| ==> s[j] == ids[0][j];
    }
    assert s[..i + 1] == ids[0] + "\n";
    assert s[i + 1..] == rest;
  }

  lemma SingleIdRoundTrip(id: string)
    requires Storable(id) && id != ""
    ensures LoadedIds(SavedContent([id])) == [id]
  {
    assert SavedContent([id]) == id;
    assert IndexOf(id, '\n') == |id|;
    assert FileLines(id) == [id];
    StripKeeps(id);
    assert StripAll([id]) == [Strip(id)] + StripAll([]);
  }

  /** `load(save(ids)) == ids` for every reloadable list, the empty one included. */
  lemma {:induction false} LoadSaveRoundTrip(ids: seq<string>)
    requires Reloadable(ids)
    ensures LoadedIds(SavedContent(ids)) == ids
  {
    if |ids| == 1 {
      SingleIdRoundTrip(ids[0]);
      assert ids == [ids[0]];
    } else if |ids| >= 2 {
      var rest := ids[1..];
      assert Reloadable(rest) by {
        forall k | 0 <= k < |rest| ensures Storable(rest[k]) {
          assert rest[k] == ids[k + 1];
        }
      }
      LoadSaveRoundTrip(rest);
      FileLinesOfSaved(ids);
      StripNewline(ids[0]);
      var restLines := FileLines(SavedContent(rest));
      assert ([ids[0] + "\n"] + restLines)[1..] == restLines;
      calc {
        LoadedIds(SavedContent(ids));
        StripAll([ids[0] + "\n"] + restLines);
        [Strip(ids[0] + "\n")] + StripAll(restLines);
        [ids[0]] + rest;
        ids;
      }
    }
  }

  /** The round trip needs the last id to be non-empty: `["a", ""]` reloads as `["a"]`. */
  lemma TrailingEmptyIdIsLost()
    ensures LoadedIds(SavedContent(["a", ""])) == ["a"]
  {
    var s := "a\n";
    assert SavedContent(["a", ""]) == s;
    assert IndexOf(s, '\n') == 1;
    assert s[..2] == s && s[2..] == [];
    assert FileLines(s) == [s];
    StripNewline("a");
  }

  /** Ids returned by the server are numbers, and their text always survives the file. */
  lemma IntIdStorable(n: int)
    ensures Storable(Str(IntId(n))) && Str(IntId(n)) != ""
  {
    var s := Str(IntId(n));
    assert !IsSpace(s[|s| - 1]);
    assert !IsSpace(s[0]);
    if n < 0 {
      assert forall k :: 1 <= k < |s| ==> s[k] == s[1..][k - 1];
    }
  }

  /** A queue holding only numeric ids reloads exactly. */
  lemma IntIdsRoundTrip(ns: seq<int>)
    ensures var ids := seq(|ns|, k requires 0 <= k < |ns| => Str(IntId(ns[k])));
            LoadedIds(SavedContent(ids)) == ids
  {
    var ids := seq(|ns|, k requires 0 <= k < |ns| => Str(IntId(ns[k])));
    forall k | 0 <= k < |ids| ensures Storable(ids[k]) && ids[k] != "" {
      IntIdStorable(ns[k]);
    }
    LoadSaveRoundTrip(ids);
  }

  /** `ids.remove(x)`: drops the first occurrence of `x`. */
  function RemoveFirst(ids: seq<string>, x: string): seq<string>
  {
    if ids == [] then []
    else if ids[0] == x then ids[1..]
    else [ids[0]] + RemoveFirst(ids[1..], x)
  }

  /** Position of the first `x` in `ids`. */
  function FirstIndex(ids: seq<string>, x: string): (k: nat)
    requires x in ids
    ensures k < |ids| && ids[k] == x && x !in ids[..k]
  {
    if ids[0] == x then 0
    else
      var k := 1 + FirstIndex(ids[1..], x);
      assert ids[..k] == [ids[0]] + ids[1..][..k - 1];
      k
  }

  /** `remove` cuts the list at the first occurrence of `x`. */
  lemma {:induction false} RemoveFirstAt(ids: seq<string>, x: string)
    requires x in ids
    ensures RemoveFirst(ids, x) == ids[..FirstIndex(ids, x)] + ids[FirstIndex(ids, x) + 1..]
  {
    if ids[0] != x {
      RemoveFirstAt(ids[1..], x);
      var k := FirstIndex(ids[1..], x);
      assert FirstIndex(ids, x) == k + 1;
      assert ids[..k + 1] == [ids[0]] + ids[1..][..k];
      assert ids[k + 2..] == ids[1..][k + 1..];
    }
  }

  /** Removing drops exactly one copy of `x` and keeps everything else in order. */
  lemma RemoveFirstSpec(ids: seq<string>, x: string)
    requires x in ids
    ensures |RemoveFirst(ids, x)| == |ids| - 1
    ensures multiset(RemoveFirst(ids, x)) == multiset(ids) - multiset{x}
  {
    RemoveFirstAt(ids, x);
    var k := FirstIndex(ids, x);
    assert ids == ids[..k] + [x] + ids[k + 1..];
  }

  /** In multiset terms, removing the first `x` takes away one copy of `x` when there is one
      and changes nothing otherwise. */
  lemma {:induction false} RemoveFirstMultiset(ids: seq<string>, x: string)
    ensures multiset(RemoveFirst(ids, x)) == multiset(ids) - multiset{x}
  {
    if ids != [] {
      assert ids == [ids[0]] + ids[1..];
      if ids[0] != x {
        RemoveFirstMultiset(ids[1..], x);
      }
    }
  }

  /** Removal is not idempotent: once the only copy is gone, a second `remove` raises. */
  lemma {:induction false} RemoveOnlyCopy(ids: seq<string>, x: string)
    requires multiset(ids)[x] == 1
    ensures x !in RemoveFirst(ids, x)
  {
    assert x in multiset(ids);
    RemoveFirstSpec(ids, x);
    assert multiset(RemoveFirst(ids, x))[x] == 0;
  }

  /** A list reloads to itself whenever it is reloadable. */
  lemma ReloadsToItself(ids: seq<string>)
    ensures Reloadable(ids) ==> LoadedIds(SavedContent(ids)) == ids
  {
    if Reloadable(ids) {
      LoadSaveRoundTrip(ids);
    }
  }

  /** The queue: the list of pending ids and the file it is persisted in. */
  class PendingJobsQueue {
    const path: string
    const store: FileStore
    var jobIds: seq<string>

    /** The file holds exactly `'\n'.join` of the in-memory list. */
    ghost predicate Persisted()
      reads this, store
    {
      path in store.files && store.files[path] == SavedContent(jobIds)
    }

    /** `__init__` once the path is known to be non-empty: loads an existing file,
        otherwise creates it holding the empty list. */
    constructor (path: string, store: FileStore)
      requires path != ""
      modifies store`files
      ensures this.path == path && this.store == store
      ensures path in old(store.files) ==>
                jobIds == LoadedIds(old(store.files)[path]) && store.files == old(store.files)
      ensures path !in old(store.files) ==>
                jobIds == [] && store.files == old(store.files)[path := ""] && Persisted()
    {
      this.path := path;
      this.store := store;
      jobIds := [];
      new;
      if path in store.files {
        Load();
      } else {
        Save();
      }
    }

    /** `load`: rebuilds the list from the file, line by line. */
    method Load()
      requires path in store.files
      modifies this`jobIds
      ensures jobIds == LoadedIds(store.files[path])
    {
      var lines := FileLines(store.files[path]);
      var ids := [];
      var i := 0;
      while i < |lines|
        invariant 0 <= i <= |lines|
        invariant ids == StripAll(lines[..i])
      {
        assert lines[..i + 1] == lines[..i] + [lines[i]];
        StripAllSnoc(lines[..i], lines[i]);
        ids := ids + [Strip(lines[i])];
        i := i + 1;
      }
      assert lines[..i] == lines;
      jobIds := ids;
    }

    /** `save`: rewrites the whole file. */
    method Save()
      modifies store`files
      ensures store.files == old(store.files)[path := SavedContent(jobIds)]
      ensures Persisted()
    {
      store.files := store.files[path := SavedContent(jobIds)];
    }

    /** `append`: adds `str(job_id)` at the end, duplicates included, and saves. */
    method Append(id: JobId)
      modifies this`jobIds, store`files
      ensures jobIds == old(jobIds) + [Str(id)]
      ensures store.files == old(store.files)[path := SavedContent(jobIds)]
      ensures Persisted() && Contains(id)
    {
      jobIds := jobIds + [Str(id)];
      Save();
    }

    /** `remove`: drops the first occurrence of `str(job_id)` and saves; raises `ValueError`,
        changing nothing, when the id is absent. */
    method Remove(id: JobId) returns (r: Outcome)
      modifies this`jobIds, store`files
      ensures Str(id) in old(jobIds) ==>
                r == Pass && jobIds == RemoveFirst(old(jobIds), Str(id))
                && store.files == old(store.files)[path := SavedContent(jobIds)] && Persisted()
      ensures Str(id) !in old(jobIds) ==>
                r == Fail(ValueError) && jobIds == old(jobIds) && store.files == old(store.files)
    {
      if Str(id) !in jobIds {
        return Fail(ValueError);
      }
      jobIds := RemoveFirst(jobIds, Str(id));
      Save();
      r := Pass;
    }

    /** `clear`: empties the list and saves, leaving an empty file. */
    method Clear()
      modifies this`jobIds, store`files
      ensures jobIds == [] && IsEmpty()
      ensures store.files == old(store.files)[path := ""] && Persisted()
    {
      jobIds := [];
      Save();
    }

    /** `__len__`: the number of ids, which is the number the file reloads to while it
        holds the list. */
    function Len(): (n: nat)
      reads this, store
      ensures n == |Items()|
      ensures Persisted() && Reloadable(jobIds) ==> n == |LoadedIds(store.files[path])|
    {
      ReloadsToItself(jobIds);
      |jobIds|
    }

    /** `is_empty`: no id is pending, in memory and in the file holding the list. */
    function IsEmpty(): (b: bool)
      reads this, store
      ensures b <==> Len() == 0
      ensures Persisted() && Reloadable(jobIds) ==> (b <==> LoadedIds(store.files[path]) == [])
    {
      ReloadsToItself(jobIds);
      |jobIds| == 0
    }

    /** `items`: a copy of the list, which later changes to the queue cannot affect; it is
        what a fresh `load` of the file holding the list gives. */
    function Items(): (r: seq<string>)
      reads this, store
      ensures Persisted() && Reloadable(jobIds) ==> r == LoadedIds(store.files[path])
    {
      ReloadsToItself(jobIds);
      jobIds
    }

    /** `__contains__`: membership of `str(job_id)`, the same in memory and in the file
        holding the list. */
    function Contains(id: JobId): (b: bool)
      reads this, store
      ensures b <==> Str(id) in Items()
      ensures Persisted() && Reloadable(jobIds) ==> (b <==> Str(id) in LoadedIds(store.files[path]))
    {
      ReloadsToItself(jobIds);
      Str(id) in jobIds
    }
  }

  /** `PendingJobsQueue(path)`: an empty path raises `ValueError` and touches no file. */
  method Open(path: string, store: FileStore) returns (r: Result<PendingJobsQueue>)
    modifies store`files
    ensures path == "" <==> r.Err?
    ensures r.Err? ==> r.error == ValueError && store.files == old(store.files)
    ensures r.Ok? ==> fresh(r.value) && r.value.path == path && r.value.store == store
    ensures r.Ok? && path in old(store.files) ==>
              r.value.jobIds == LoadedIds(old(store.files)[path]) && store.files == old(store.files)
    ensures r.Ok? && path !in old(store.files) ==>
              r.value.jobIds == [] && store.files == old(store.files)[path := ""]
  {
    if path == "" {
      return Err(ValueError);
    }
    var q := new PendingJobsQueue(path, store);
    r := Ok(q);
  }
}
