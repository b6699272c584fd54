/**
 * The summary of a batch import in app.js: `Promise.allSettled` gives one
 * outcome per chosen file, which is counted and turned into a message.
 */
module AppImport {
  import opened Wrappers
  import opened Sequences

  /** What one import task resolves with. */
  datatype ImportRecord = ImportRecord(original: string, savedAs: string, renamed: bool)

  /** One settled outcome of `Promise.allSettled`. */
  datatype Settled = Fulfilled(value: ImportRecord) | Rejected(reason: string)

  /** `{ original: file.name, savedAs: name, renamed: name !== file.name }` */
  function RecordFor(original: string, savedAs: string): (r: ImportRecord)
    ensures r.original == original && r.savedAs == savedAs
    ensures r.renamed <==> savedAs != original
  {
    ImportRecord(original, savedAs, savedAs != original)
  }

  predicate IsFulfilled(s: Settled) { s.Fulfilled? }

  predicate IsRejected(s: Settled) { s.Rejected? }

  predicate WasRenamed(s: Settled) { s.Fulfilled? && s.value.renamed }

  datatype Tally = Tally(imported: nat, renamed: nat, failures: nat)

  lemma {:induction false} FilterPartition(s: seq<Settled>)
    ensures |Filter(IsFulfilled, s)| + |Filter(IsRejected, s)| == |s|
  {
    if s != [] {
      FilterPartition(s[1..]);
    }
  }

  /** The three counts of the add handler: fulfilled, fulfilled and renamed, rejected. */
  function TallyOf(results: seq<Settled>): (t: Tally)
    ensures t.imported + t.failures == |results|
    ensures t.renamed <= t.imported
  {
    var successes := Filter(IsFulfilled, results);
    FilterPartition(results);
    Tally(|successes|, |Filter(WasRenamed, successes)|, |Filter(IsRejected, results)|)
  }

  function Add(a: Tally, b: Tally): Tally
  {
    Tally(a.imported + b.imported, a.renamed + b.renamed, a.failures + b.failures)
  }

  /** Counting is per item: one item's outcome never changes how another is counted. */
  lemma TallyOfConcat(a: seq<Settled>, b: seq<Settled>)
    ensures TallyOf(a + b) == Add(TallyOf(a), TallyOf(b))
  {
    FilterConcat(IsFulfilled, a, b);
    FilterConcat(IsRejected, a, b);
    FilterConcat(WasRenamed, Filter(IsFulfilled, a), Filter(IsFulfilled, b));
  }

  /** A renamed success is one whose saved name differs from the chosen file's name. */
  lemma {:induction false} RenamedCountsChangedNames(results: seq<Settled>)
    requires forall i :: 0 <= i < |results| && results[i].Fulfilled? ==>
      results[i].value == RecordFor(results[i].value.original, results[i].value.savedAs)
    ensures TallyOf(results).renamed
      == |Filter((s: Settled) => s.Fulfilled? && s.value.savedAs != s.value.original, results)|
  {
    if results != [] {
      RenamedCountsChangedNames(results[1..]);
      assert results == [results[0]] + results[1..];
      TallyOfConcat([results[0]], results[1..]);
    }
  }

  /** The status message, with the counts it shows. */
  datatype ImportMessage =
    | AllFailed(failures: nat)
    | Copied(imported: nat, renamedNote: Option<nat>, failureNote: Option<nat>)

  function MessageFor(t: Tally): (m: ImportMessage)
    ensures m.AllFailed? <==> t.imported == 0 && t.failures > 0
    ensures m.AllFailed? ==> m.failures == t.failures
    ensures m.Copied? ==> m.imported == t.imported
    ensures m.Copied? ==> (m.renamedNote.Some? <==> t.renamed > 0)
    ensures m.Copied? && m.renamedNote.Some? ==> m.renamedNote.value == t.renamed
    ensures m.Copied? ==> (m.failureNote.Some? <==> t.failures > 0)
    ensures m.Copied? && m.failureNote.Some? ==> m.failureNote.value == t.failures
  {
    if t.imported == 0 && t.failures > 0 then AllFailed(t.failures)
    else Copied(t.imported,
                if t.renamed > 0 then Some(t.renamed) else None,
                if t.failures > 0 then Some(t.failures) else None)
  }

  /** The failure-only message appears exactly when every chosen file failed. */
  lemma FailureOnlyExactlyWhenAllFailed(results: seq<Settled>)
    ensures MessageFor(TallyOf(results)).AllFailed?
      <==> results != [] && forall i :: 0 <= i < |results| ==> results[i].Rejected?
  {
    var t := TallyOf(results);
    if t.imported == 0 {
      forall i | 0 <= i < |results|
        ensures results[i].Rejected?
      {
        if results[i].Fulfilled? {
          FilterMembers(IsFulfilled, results, results[i]);
        }
      }
    }
    if results != [] && forall i :: 0 <= i < |results| ==> results[i].Rejected? {
      if t.imported > 0 {
        var x := Filter(IsFulfilled, results)[0];
        FilterMembers(IsFulfilled, results, x);
      }
    }
  }
}
