/**
  Model of the judgment ingestion script: every text file found in a folder is
  read, embedded, and upserted into the graph database as a `Case` node keyed
  by an id derived from the file name.  Records are written in batches of
  `BATCH_SIZE`; a file that cannot be read or embedded is skipped.

  Reading a file and computing its embedding are one oracle, `load`, that
  either yields the text with its embedding or fails.  A database write is
  "append the batch to the list of flushed batches, and fold the batch into
  the store of case nodes".
*/
module Ingest {
  import opened Wrappers

  /** Number of records per write transaction. */
  const BATCH_SIZE: nat := 50

  /** The file-name suffix removed from a file name to obtain its case id. */
  const TXT: string := ".txt"

  /** An embedding vector; its floating-point entries are not interpreted. */
  type Embedding = seq<real>

  /** What the read-and-embed step yields for one file. */
  datatype Content = Content(text: string, embedding: Embedding)

  /** One record of a batch: `{'id': ..., 'text': ..., 'embedding': ...}`. */
  datatype Record = Record(id: string, text: string, embedding: Embedding)

  /** The properties of a `Case` node besides its id. */
  datatype Case = Case(text: string, embedding: Embedding)

  /** The graph database, as far as this script sees it: case id to case node. */
  type Store = map<string, Case>

  // ---------------------------------------------------------------------
  // Case ids: the last path component with every ".txt" removed
  // ---------------------------------------------------------------------

  /** Index of the last '/' in `s`, if any. */
  function LastSlash(s: string): (r: Option<nat>)
    ensures r.Some? ==> r.value < |s| && s[r.value] == '/'
    ensures r.Some? ==> forall j :: r.value < j < |s| ==> s[j] != '/'
    ensures r.None? <==> '/' !in s
    decreases |s|
  {
    if |s| == 0 then None
    else if s[|s| - 1] == '/' then Some(|s| - 1)
    else LastSlash(s[..|s| - 1])
  }

  /** The last component of `rsplit('/', 1)`: the whole string when there is no '/'. */
  function BaseName(path: string): (name: string)
  {
    match LastSlash(path)
    case None => path
    case Some(k) => path[k + 1..]
  }

  /** `s.replace('.txt', '')`: one left-to-right pass removing non-overlapping occurrences. */
  function StripTxt(s: string): (r: string)
    decreases |s|
  {
    if |s| < |TXT| then s
    else if s[..|TXT|] == TXT then StripTxt(s[|TXT|..])
    else [s[0]] + StripTxt(s[1..])
  }

  /** The case id of a file path. */
  function CaseId(path: string): (id: string)
  {
    StripTxt(BaseName(path))
  }

  /** The base name is the part after the last '/', or the whole path when it has none. */
  lemma BaseNameIsLastComponent(path: string)
    ensures '/' !in path ==> BaseName(path) == path
    ensures '/' in path ==> exists dir :: path == dir + "/" + BaseName(path)
    ensures '/' !in BaseName(path)
  {
    match LastSlash(path)
    case None =>
    case Some(k) =>
      assert path == path[..k] + "/" + path[k + 1..];
      var base := path[k + 1..];
      forall j | 0 <= j < |base| ensures base[j] != '/' {
        assert base[j] == path[k + 1 + j];
      }
  }

  /** Joining a directory and a slash-free name and taking the base name gives the name back. */
  lemma BaseNameOfJoin(dir: string, name: string)
    requires '/' !in name
    ensures BaseName(dir + "/" + name) == name
  {
    var path := dir + "/" + name;
    var k := |dir|;
    assert path[k] == '/';
    assert path[k + 1..] == name;
    assert forall j :: k < j < |path| ==> path[j] == name[j - k - 1];
  }

  /** Removing ".txt" only deletes characters: every character of the result occurs in the input. */
  lemma {:induction false} StripTxtKeepsCharacters(s: string, c: char)
    requires c in StripTxt(s)
    ensures c in s
    decreases |s|
  {
    if |s| < |TXT| {
    } else if s[..|TXT|] == TXT {
      StripTxtKeepsCharacters(s[|TXT|..], c);
    } else if c != s[0] {
      StripTxtKeepsCharacters(s[1..], c);
    }
  }

  /** A case id never contains '/'. */
  lemma CaseIdHasNoSlash(path: string)
    ensures '/' !in CaseId(path)
  {
    BaseNameIsLastComponent(path);
    if '/' in CaseId(path) {
      StripTxtKeepsCharacters(BaseName(path), '/');
    }
  }

  /** A prefix without '.' cannot start an occurrence of ".txt" and is kept as it is. */
  lemma {:induction false} StripTxtDotFreePrefix(a: string, b: string)
    requires '.' !in a
    ensures StripTxt(a + b) == a + StripTxt(b)
    decreases |a|
  {
    if a != [] {
      var s := a + b;
      assert s[0] == a[0] && a[0] != TXT[0];
      assert s[1..] == a[1..] + b;
      StripTxtDotFreePrefix(a[1..], b);
      if |s| >= |TXT| {
        assert s[..|TXT|] != TXT by { assert s[..|TXT|][0] == a[0]; }
        assert StripTxt(s) == [a[0]] + (a[1..] + StripTxt(b));
      } else {
        assert StripTxt(b) == b;
      }
      assert [a[0]] + a[1..] == a;
    } else {
      assert a + b == b;
    }
  }

  /** An occurrence of ".txt" starts at index `i` of `s`. */
  predicate TxtAt(s: string, i: nat)
  {
    i + |TXT| <= |s| && s[i..i + |TXT|] == TXT
  }

  /**
    A ".txt" placed between two texts is removed, and the texts on either side
    are processed independently: no match can straddle it, because no proper
    suffix of ".txt" is also a prefix of it.
  */
  lemma {:induction false} StripTxtJoin(a: string, b: string)
    ensures StripTxt(a + TXT + b) == StripTxt(a) + StripTxt(b)
    decreases |a|
  {
    var s := a + TXT + b;
    if |a| == 0 {
      assert s == TXT + b;
      assert s[..|TXT|] == TXT && s[|TXT|..] == b;
    } else if |a| >= |TXT| && a[..|TXT|] == TXT {
      assert s[..|TXT|] == TXT;
      assert s[|TXT|..] == a[|TXT|..] + TXT + b;
      StripTxtJoin(a[|TXT|..], b);
    } else {
      // `s` does not start with ".txt": either `a` itself does not, or `a` is
      // shorter than ".txt" and the '.' of the inserted ".txt" falls inside.
      assert s[..|TXT|] != TXT by {
        if |a| >= |TXT| {
          assert s[..|TXT|] == a[..|TXT|];
        } else {
          assert s[..|TXT|][|a|] == '.' && TXT[|a|] != '.';
        }
      }
      assert StripTxt(s) == [a[0]] + StripTxt(s[1..]);
      assert s[1..] == a[1..] + TXT + b;
      StripTxtJoin(a[1..], b);
      assert StripTxt(a) == [a[0]] + StripTxt(a[1..]) by {
        if |a| < |TXT| {
          assert [a[0]] + a[1..] == a;
        }
      }
    }
  }

  /** Text with no occurrence of ".txt" is left unchanged. */
  lemma {:induction false} StripTxtNoOccurrence(s: string)
    requires forall i :: 0 <= i <= |s| ==> !TxtAt(s, i)
    ensures StripTxt(s) == s
    decreases |s|
  {
    if |s| >= |TXT| {
      assert !TxtAt(s, 0);
      forall i | 0 <= i <= |s[1..]| ensures !TxtAt(s[1..], i) {
        assert !TxtAt(s, i + 1);
        if i + |TXT| <= |s[1..]| {
          assert s[1..][i..i + |TXT|] == s[i + 1..i + 1 + |TXT|];
        }
      }
      StripTxtNoOccurrence(s[1..]);
      assert [s[0]] + s[1..] == s;
    }
  }

  /** `dir/NAME.txt` has case id `NAME` with its own ".txt" occurrences removed. */
  lemma CaseIdOfTxtFile(dir: string, name: string)
    requires '/' !in name
    ensures CaseId(dir + "/" + name + TXT) == StripTxt(name)
  {
    assert dir + "/" + name + TXT == dir + "/" + (name + TXT);
    BaseNameOfJoin(dir, name + TXT);
    StripTxtJoin(name, []);
    assert name + TXT + [] == name + TXT;
  }

  /** The ordinary case: a NAME without '/' and without ".txt" is its own case id. */
  lemma CaseIdOfPlainTxtFile(dir: string, name: string)
    requires '/' !in name
    requires forall i :: 0 <= i <= |name| ==> !TxtAt(name, i)
    ensures CaseId(dir + "/" + name + TXT) == name
  {
    CaseIdOfTxtFile(dir, name);
    StripTxtNoOccurrence(name);
  }

  /** One example of the law above: "a.txt.txt" gives "a". */
  lemma StripTxtRemovesEveryOccurrence()
    ensures StripTxt("a.txt.txt") == "a"
  {
    StripTxtDotFreePrefix("a", ".txt.txt");
    assert StripTxt(".txt.txt") == StripTxt(".txt");
    assert StripTxt(".txt") == StripTxt("");
  }

  /** The removal is one pass: deleting ".txt" can join a new ".txt" that stays. */
  lemma StripTxtCanLeaveTxt()
    ensures StripTxt("a.t.txtxt") == "a.txt"
  {
    StripTxtDotFreePrefix("a", ".t.txtxt");
    var rest := ".t.txtxt";
    assert rest[..4] == ".t.t" && rest[1..] == "t.txtxt";
    StripTxtDotFreePrefix("t", ".txtxt");
    assert StripTxt(".txtxt") == StripTxt("xt");
    assert StripTxt("xt") == "xt";
  }

  // ---------------------------------------------------------------------
  // `ingest_batch`: upsert each record by id, in batch order
  // ---------------------------------------------------------------------

  /** Index of the last record of `batch` with the given id, if any. */
  function LastIndexOf(batch: seq<Record>, id: string): (r: Option<nat>)
    ensures r.Some? ==> r.value < |batch| && batch[r.value].id == id
    ensures r.Some? ==> forall j :: r.value < j < |batch| ==> batch[j].id != id
    ensures r.None? <==> forall j :: 0 <= j < |batch| ==> batch[j].id != id
  {
    if |batch| == 0 then None
    else if batch[|batch| - 1].id == id then Some(|batch| - 1)
    else LastIndexOf(batch[..|batch| - 1], id)
  }

  /** The node properties a record sets. */
  function CaseOf(r: Record): Case
  {
    Case(r.text, r.embedding)
  }

  /** Upsert the records of `batch` one after the other, in batch order. */
  function IngestBatch(store: Store, batch: seq<Record>): (r: Store)
  {
    if |batch| == 0 then store
    else
      var last := batch[|batch| - 1];
      IngestBatch(store, batch[..|batch| - 1])[last.id := CaseOf(last)]
  }

  /**
    After the upsert an id has a node exactly when it had one or occurs in the
    batch; an id of the batch holds its last record's text and embedding, and
    any other id keeps its node.
  */
  lemma {:induction false} IngestBatchSets(store: Store, batch: seq<Record>, id: string)
    ensures id in IngestBatch(store, batch) <==> id in store || LastIndexOf(batch, id).Some?
    ensures LastIndexOf(batch, id).Some? ==>
      IngestBatch(store, batch)[id] == CaseOf(batch[LastIndexOf(batch, id).value])
    ensures LastIndexOf(batch, id).None? && id in store ==> IngestBatch(store, batch)[id] == store[id]
    decreases |batch|
  {
    if |batch| > 0 {
      IngestBatchSets(store, batch[..|batch| - 1], id);
    }
  }

  /** Upserting two batches one after the other is upserting their concatenation. */
  lemma {:induction false} IngestBatchConcat(store: Store, a: seq<Record>, b: seq<Record>)
    ensures IngestBatch(IngestBatch(store, a), b) == IngestBatch(store, a + b)
    decreases |b|
  {
    if |b| == 0 {
      assert a + b == a;
    } else {
      var n := |b| - 1;
      assert (a + b)[..|a + b| - 1] == a + b[..n];
      assert (a + b)[|a + b| - 1] == b[n];
      IngestBatchConcat(store, a, b[..n]);
    }
  }

  /** Applying the same batch a second time changes nothing. */
  lemma IngestBatchIdempotent(store: Store, batch: seq<Record>)
    ensures IngestBatch(IngestBatch(store, batch), batch) == IngestBatch(store, batch)
  {
    var once := IngestBatch(store, batch);
    var twice := IngestBatch(once, batch);
    forall id ensures id in twice <==> id in once {
      IngestBatchSets(store, batch, id);
      IngestBatchSets(once, batch, id);
    }
    assert twice.Keys == once.Keys;
    forall id | id in once ensures twice[id] == once[id] {
      IngestBatchSets(store, batch, id);
      IngestBatchSets(once, batch, id);
    }
  }

  // ---------------------------------------------------------------------
  // `ingest_all_judgments`
  // ---------------------------------------------------------------------

  /** The record a file contributes, or None when its read or embed step fails. */
  function RecordFor(file: string, load: string -> Option<Content>): Option<Record>
  {
    match load(file)
    case None => None
    case Some(c) => Some(Record(CaseId(file), c.text, c.embedding))
  }

  /** The records one file contributes to the batch buffer: none or one. */
  function Contribution(file: string, load: string -> Option<Content>): seq<Record>
  {
    match RecordFor(file, load)
    case None => []
    case Some(r) => [r]
  }

  /** The records of all files whose read and embed steps succeed, in input order. */
  function Successes(files: seq<string>, load: string -> Option<Content>): seq<Record>
  {
    if |files| == 0 then []
    else Successes(files[..|files| - 1], load) + Contribution(files[|files| - 1], load)
  }

  /** A failing file does not stop the files after it: successes split over concatenation. */
  lemma {:induction false} SuccessesConcat(a: seq<string>, b: seq<string>, load: string -> Option<Content>)
    ensures Successes(a + b, load) == Successes(a, load) + Successes(b, load)
    decreases |b|
  {
    if |b| == 0 {
      assert a + b == a;
    } else {
      var n := |b| - 1;
      assert (a + b)[..|a + b| - 1] == a + b[..n];
      assert (a + b)[|a + b| - 1] == b[n];
      SuccessesConcat(a, b[..n], load);
    }
  }

  /** Every ingested record comes from some file whose read and embed steps yield it. */
  lemma {:induction false} SuccessSource(files: seq<string>, load: string -> Option<Content>, r: Record)
    returns (i: nat)
    requires r in Successes(files, load)
    ensures i < |files| && RecordFor(files[i], load) == Some(r)
    decreases |files|
  {
    var n := |files| - 1;
    assert Successes(files, load) == Successes(files[..n], load) + Contribution(files[n], load);
    if r in Successes(files[..n], load) {
      i := SuccessSource(files[..n], load, r);
      assert files[..n][i] == files[i];
    } else {
      i := n;
    }
  }

  /** Every file whose read and embed steps succeed has its record ingested. */
  lemma SuccessIncluded(files: seq<string>, load: string -> Option<Content>, i: nat)
    requires i < |files| && RecordFor(files[i], load).Some?
    ensures RecordFor(files[i], load).value in Successes(files, load)
  {
    var upto, after := files[..i + 1], files[i + 1..];
    var r := RecordFor(files[i], load).value;
    assert files == upto + after;
    SuccessesConcat(upto, after, load);
    SuccessesSnoc(files, i, load);
    var prefix := Successes(files[..i], load);
    assert Contribution(files[i], load) == [r];
    assert Successes(files, load) == prefix + [r] + Successes(after, load);
    assert (prefix + [r] + Successes(after, load))[|prefix|] == r;
  }

  /** A record is ingested exactly when some file's read and embed steps yield it. */
  lemma SuccessesMembers(files: seq<string>, load: string -> Option<Content>, r: Record)
    ensures r in Successes(files, load) <==>
      exists i :: 0 <= i < |files| && RecordFor(files[i], load) == Some(r)
  {
    if r in Successes(files, load) {
      var i := SuccessSource(files, load, r);
    }
    if exists i :: 0 <= i < |files| && RecordFor(files[i], load) == Some(r) {
      var i :| 0 <= i < |files| && RecordFor(files[i], load) == Some(r);
      SuccessIncluded(files, load, i);
    }
  }

  /** A file whose read or embed step fails contributes no record. */
  lemma FailedFileSkipped(files: seq<string>, file: string, load: string -> Option<Content>)
    requires load(file).None?
    ensures Successes(files + [file], load) == Successes(files, load)
  {
    SuccessesConcat(files, [file], load);
    assert [file][..0] == [];
  }

  /** All batches written one after the other, in order. */
  function Flatten(batches: seq<seq<Record>>): seq<Record>
  {
    if |batches| == 0 then []
    else Flatten(batches[..|batches| - 1]) + batches[|batches| - 1]
  }

  /** A record is written exactly when it lies in some flushed batch. */
  lemma {:induction false} FlattenMembers(batches: seq<seq<Record>>, r: Record)
    ensures r in Flatten(batches) <==> exists k :: 0 <= k < |batches| && r in batches[k]
    decreases |batches|
  {
    if |batches| > 0 {
      var n := |batches| - 1;
      FlattenMembers(batches[..n], r);
      if exists k :: 0 <= k < |batches| && r in batches[k] {
        var k :| 0 <= k < |batches| && r in batches[k];
        if k < n {
          assert batches[..n][k] == batches[k];
        }
      }
    }
  }

  /** Writing one more batch appends its records after those already written. */
  lemma FlattenSnoc(batches: seq<seq<Record>>, batch: seq<Record>)
    ensures Flatten(batches + [batch]) == Flatten(batches) + batch
  {
    assert (batches + [batch])[..|batches|] == batches;
  }

  /** Processing one more file appends its contribution. */
  lemma SuccessesSnoc(files: seq<string>, i: nat, load: string -> Option<Content>)
    requires i < |files|
    ensures Successes(files[..i + 1], load) == Successes(files[..i], load) + Contribution(files[i], load)
  {
    assert files[..i + 1][..i] == files[..i];
  }

  /**
    What holds between files: every written batch is full, the buffer holds fewer
    than `BATCH_SIZE` records, and the store reflects exactly the written batches.
  */
  ghost predicate Buffered(flushed: seq<seq<Record>>, batch: seq<Record>, store0: Store, store: Store)
  {
    && (forall k :: 0 <= k < |flushed| ==> |flushed[k]| == BATCH_SIZE)
    && |Flatten(flushed)| == BATCH_SIZE * |flushed|
    && |batch| < BATCH_SIZE
    && store == IngestBatch(store0, Flatten(flushed))
  }

  /**
    `ingest_all_judgments` over the list of globbed files, assuming every write
    transaction succeeds.  Returns the batches in the order they were written and
    the store after the last write.
  */
  method IngestAllJudgments(files: seq<string>, load: string -> Option<Content>, store0: Store)
    returns (flushed: seq<seq<Record>>, store: Store)
    ensures Flatten(flushed) == Successes(files, load)
    ensures forall k :: 0 <= k < |flushed| - 1 ==> |flushed[k]| == BATCH_SIZE
    ensures |flushed| > 0 ==> 0 < |flushed[|flushed| - 1]| <= BATCH_SIZE
    ensures |flushed| == (|Successes(files, load)| + BATCH_SIZE - 1) / BATCH_SIZE
    ensures store == IngestBatch(store0, Successes(files, load))
  {
    var batch: seq<Record> := [];
    flushed, store := [], store0;
    for i := 0 to |files|
      invariant Flatten(flushed) + batch == Successes(files[..i], load)
      invariant Buffered(flushed, batch, store0, store)
    {
      flushed, store, batch := IngestFile(files, i, load, flushed, store, store0, batch);
    }
    assert files[..|files|] == files;
    if |batch| > 0 {
      flushed, store := Flush(flushed, store, store0, batch);
    }
  }

  /** One iteration of the loop: derive the id, try to read and embed the file, buffer its record. */
  method IngestFile(files: seq<string>, i: nat, load: string -> Option<Content>,
                    flushed: seq<seq<Record>>, store: Store, ghost store0: Store, batch: seq<Record>)
    returns (flushed': seq<seq<Record>>, store': Store, batch': seq<Record>)
    requires i < |files|
    requires Flatten(flushed) + batch == Successes(files[..i], load)
    requires Buffered(flushed, batch, store0, store)
    ensures Flatten(flushed') + batch' == Successes(files[..i + 1], load)
    ensures Buffered(flushed', batch', store0, store')
  {
    var caseId := CaseId(files[i]);
    SuccessesSnoc(files, i, load);
    var loaded := load(files[i]);
    flushed', store', batch' := flushed, store, batch;
    if loaded.Some? {
      flushed', store', batch' := Append(flushed, store, store0, batch,
                                         Record(caseId, loaded.value.text, loaded.value.embedding));
    }
  }

  /** `batch.append(...)`, followed by a write of the buffer once it holds `BATCH_SIZE` records. */
  method Append(flushed: seq<seq<Record>>, store: Store, ghost store0: Store, batch: seq<Record>, rec: Record)
    returns (flushed': seq<seq<Record>>, store': Store, batch': seq<Record>)
    requires Buffered(flushed, batch, store0, store)
    ensures Buffered(flushed', batch', store0, store')
    ensures Flatten(flushed') + batch' == Flatten(flushed) + batch + [rec]
    ensures |batch'| == 0 <==> |batch| + 1 == BATCH_SIZE
    ensures flushed' == if |batch| + 1 == BATCH_SIZE then flushed + [batch + [rec]] else flushed
  {
    batch' := batch + [rec];
    flushed', store' := flushed, store;
    if |batch'| >= BATCH_SIZE {
      flushed', store' := Flush(flushed, store, store0, batch');
      batch' := [];
    }
  }

  /** One write transaction: the batch is upserted and recorded as written. */
  method Flush(flushed: seq<seq<Record>>, store: Store, ghost store0: Store, batch: seq<Record>)
    returns (flushed': seq<seq<Record>>, store': Store)
    requires store == IngestBatch(store0, Flatten(flushed))
    ensures flushed' == flushed + [batch]
    ensures Flatten(flushed') == Flatten(flushed) + batch
    ensures store' == IngestBatch(store0, Flatten(flushed'))
  {
    IngestBatchConcat(store0, Flatten(flushed), batch);
    FlattenSnoc(flushed, batch);
    flushed', store' := flushed + [batch], IngestBatch(store, batch);
  }
}
