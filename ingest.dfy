/** `POST /jobs`: the payload normalisation, the lookup of URLs already
    stored, the filter, the unordered `insertMany` against the unique index
    on `apply_url`, and the `added`/`skipped` report. */
module Ingest {
  import opened Wrappers
  import opened JobSchema
  import Listing

  /** A request body: one job object, or an array of them. */
  datatype Body = Single(posting: Posting) | Batch(postings: seq<Posting>)

  /** The body of a successful `POST /jobs`. */
  datatype InsertReport = InsertReport(added: nat, skipped: nat)

  /** What `insertMany(docs, { ordered: false })` leaves behind: the store
      afterwards and how many documents the unique index rejected. */
  datatype InsertOutcome = InsertOutcome(stored: seq<Job>, rejected: nat)

  /** The batch a body stands for: an array as it is, anything else as a
      batch of one. */
  function Payload(body: Body): (payload: seq<Posting>)
    ensures body.Single? ==> payload == [body.posting]
    ensures body.Batch? ==> payload == body.postings
  {
    match body
    case Single(p) => [p]
    case Batch(ps) => ps
  }

  /** The URLs the single lookup `find({ apply_url: { $in: urls } })` finds:
      those of stored records that some payload entry also names. */
  function ExistingUrls(store: seq<Job>, payload: seq<Posting>): (existing: set<string>)
    ensures existing == Urls(store) * PostingUrls(payload)
  {
    var urls := PostingUrls(payload);
    set j <- store | j.applyUrl in urls :: j.applyUrl
  }

  /** Reference count for `skipped`: the payload entries, repeats counted,
      whose URL is in `existing`. */
  function CountStored(payload: seq<Posting>, existing: set<string>): nat {
    if payload == [] then 0
    else (if payload[0].applyUrl in existing then 1 else 0) + CountStored(payload[1..], existing)
  }

  /** The payload entries whose URL is not in `existing`, in payload
      order; repeats of a new URL are all kept. */
  function FilterNew(payload: seq<Posting>, existing: set<string>): (r: seq<Posting>)
    ensures forall p :: p in r <==> p in payload && p.applyUrl !in existing
    ensures |r| + CountStored(payload, existing) == |payload|
  {
    if payload == [] then []
    else
      var rest := FilterNew(payload[1..], existing);
      assert forall p :: p in payload <==> p == payload[0] || p in payload[1..];
      if payload[0].applyUrl in existing then rest else [payload[0]] + rest
  }

  /** The filter keeps the payload's order: filtering a concatenation is
      concatenating the filtered parts. */
  lemma {:induction false} FilterNewConcat(a: seq<Posting>, b: seq<Posting>, existing: set<string>)
    ensures FilterNew(a + b, existing) == FilterNew(a, existing) + FilterNew(b, existing)
  {
    if a != [] {
      assert (a + b)[0] == a[0] && (a + b)[1..] == a[1..] + b;
      FilterNewConcat(a[1..], b, existing);
    } else {
      assert a + b == b;
    }
  }

  /** Two sets that agree on the payload's URLs select the same entries. */
  lemma {:induction false} FilterNewAgrees(payload: seq<Posting>, e1: set<string>, e2: set<string>)
    requires forall p :: p in payload ==> (p.applyUrl in e1 <==> p.applyUrl in e2)
    ensures FilterNew(payload, e1) == FilterNew(payload, e2)
    ensures CountStored(payload, e1) == CountStored(payload, e2)
  {
    if payload != [] {
      assert payload[0] in payload;
      forall p | p in payload[1..] ensures (p.applyUrl in e1 <==> p.applyUrl in e2) {
        assert p in payload;
      }
      FilterNewAgrees(payload[1..], e1, e2);
    }
  }

  /** Looking up only the payload's URLs selects the same entries as
      checking each entry against every stored URL. */
  lemma LookupMatchesStore(store: seq<Job>, payload: seq<Posting>)
    ensures FilterNew(payload, ExistingUrls(store, payload)) == FilterNew(payload, Urls(store))
    ensures CountStored(payload, ExistingUrls(store, payload)) == CountStored(payload, Urls(store))
  {
    forall p | p in payload
      ensures p.applyUrl in ExistingUrls(store, payload) <==> p.applyUrl in Urls(store)
    {
      assert p.applyUrl in PostingUrls(payload);
    }
    FilterNewAgrees(payload, ExistingUrls(store, payload), Urls(store));
  }

  /** The postings a body sends to `insertMany` against the store `store`. */
  function ToInsert(store: seq<Job>, body: Body): seq<Posting> {
    FilterNew(Payload(body), Urls(store))
  }

  /** `insertMany(docs, { ordered: false })` under the unique index on
      `apply_url`: a document whose URL is already stored, or is stored by
      another document of the same call, is rejected, and the others are
      committed regardless. The model tries the documents in batch order,
      one admissible order of the database's. */
  function InsertUnordered(store: seq<Job>, docs: seq<Job>): (o: InsertOutcome)
    ensures |store| <= |o.stored| && o.stored[..|store|] == store
    ensures |o.stored| + o.rejected == |store| + |docs|
    decreases |docs|
  {
    if docs == [] then
      InsertOutcome(store, 0)
    else
      if docs[0].applyUrl in Urls(store) then
        var o := InsertUnordered(store, docs[1..]);
        InsertOutcome(o.stored, o.rejected + 1)
      else
        var grown := store + [docs[0]];
        var o := InsertUnordered(grown, docs[1..]);
        assert o.stored[..|store|] == o.stored[..|grown|][..|store|];
        InsertOutcome(o.stored, o.rejected)
  }

  /** Every URL of the batch is stored afterwards, whether its document was
      committed or rejected as a duplicate. */
  lemma {:induction false} InsertUnorderedUrls(store: seq<Job>, docs: seq<Job>)
    ensures Urls(InsertUnordered(store, docs).stored) == Urls(store) + Urls(docs)
    decreases |docs|
  {
    if docs != [] {
      UrlsAndUniqueCons(docs);
      if docs[0].applyUrl in Urls(store) {
        InsertUnorderedUrls(store, docs[1..]);
      } else {
        var grown := store + [docs[0]];
        assert Urls(grown) == Urls(store) + {docs[0].applyUrl};
        InsertUnorderedUrls(grown, docs[1..]);
      }
    }
  }

  /** The unique index survives an unordered insert, and each record the
      insert adds comes from the batch. */
  lemma {:induction false} InsertUnorderedKeepsUnique(store: seq<Job>, docs: seq<Job>)
    requires UniqueUrls(store)
    ensures var o := InsertUnordered(store, docs);
            UniqueUrls(o.stored) && forall j :: j in o.stored[|store|..] ==> j in docs
    decreases |docs|
  {
    if docs != [] {
      var d := docs[0];
      if d.applyUrl in Urls(store) {
        InsertUnorderedKeepsUnique(store, docs[1..]);
      } else {
        var grown := store + [d];
        forall i, k | 0 <= i < k < |grown| ensures grown[i].applyUrl != grown[k].applyUrl {
          if k == |store| {
            assert grown[i] in store;
          }
        }
        InsertUnorderedKeepsUnique(grown, docs[1..]);
        var o := InsertUnordered(grown, docs[1..]);
        assert o.stored[|store|..] == [d] + o.stored[|grown|..];
      }
    }
  }

  /** `insertMany` rejects nothing exactly when the batch has distinct URLs,
      none of them already stored. */
  lemma {:induction false} InsertUnorderedCleanIff(store: seq<Job>, docs: seq<Job>)
    ensures InsertUnordered(store, docs).rejected == 0 <==>
              UniqueUrls(docs) && Urls(store) !! Urls(docs)
    decreases |docs|
  {
    if docs != [] {
      var d := docs[0];
      var rest := docs[1..];
      UrlsAndUniqueCons(docs);
      if d.applyUrl in Urls(store) {
        assert d.applyUrl in Urls(store) * Urls(docs);
      } else {
        var grown := store + [d];
        assert Urls(grown) == Urls(store) + {d.applyUrl};
        InsertUnorderedCleanIff(grown, rest);
        DisjointCons(Urls(store), d.applyUrl, Urls(rest));
      }
    }
  }

  /** When `insertMany` rejects nothing, it appends the whole batch in order. */
  lemma {:induction false} InsertUnorderedCleanAppends(store: seq<Job>, docs: seq<Job>)
    requires InsertUnordered(store, docs).rejected == 0
    ensures InsertUnordered(store, docs).stored == store + docs
    decreases |docs|
  {
    if docs != [] {
      var grown := store + [docs[0]];
      assert InsertUnordered(store, docs) == InsertUnordered(grown, docs[1..]);
      InsertUnorderedCleanAppends(grown, docs[1..]);
      assert store + docs == grown + docs[1..];
    }
  }

  lemma DisjointCons(s: set<string>, u: string, r: set<string>)
    requires u !in s
    ensures s !! ({u} + r) <==> s !! r
    ensures (s + {u}) !! r <==> s !! r && u !in r
  {
  }

  /** How the URLs and the uniqueness of a non-empty batch split into its
      first record and the rest. */
  lemma UrlsAndUniqueCons(docs: seq<Job>)
    requires docs != []
    ensures Urls(docs) == {docs[0].applyUrl} + Urls(docs[1..])
    ensures UniqueUrls(docs) <==> UniqueUrls(docs[1..]) && docs[0].applyUrl !in Urls(docs[1..])
  {
    var d := docs[0];
    var rest := docs[1..];
    assert forall j :: j in docs <==> j == d || j in rest;
    if UniqueUrls(docs) {
      forall j | j in rest ensures j.applyUrl != d.applyUrl {
        var k :| 0 <= k < |rest| && rest[k] == j;
        assert docs[k + 1] == j;
      }
      forall i, k | 0 <= i < k < |rest| ensures rest[i].applyUrl != rest[k].applyUrl {
        assert rest[i] == docs[i + 1] && rest[k] == docs[k + 1];
      }
    }
    if UniqueUrls(rest) && d.applyUrl !in Urls(rest) {
      forall i, k | 0 <= i < k < |docs| ensures docs[i].applyUrl != docs[k].applyUrl {
        assert docs[k] == rest[k - 1] && docs[k] in rest;
        if i > 0 {
          assert docs[i] == rest[i - 1];
        }
      }
    }
  }

  /** Mongoose's `insertMany(docs, { ordered: false })` at time `now`:
      postings that fail the `required` validator are dropped without an
      error, the rest are stamped and go to the unordered insert. */
  function InsertMany(store: seq<Job>, docs: seq<Posting>, now: nat): (o: InsertOutcome)
    ensures |store| <= |o.stored| && o.stored[..|store|] == store
    ensures |o.stored| - |store| + o.rejected + (|docs| - |Validated(docs)|) == |docs|
  {
    InsertUnordered(store, StampAll(Validated(docs), now))
  }

  /** Re-submitting a body after any call with it that reached the store, a
      failed in-batch URL collision included, skips every entry that passes
      validation, whatever timestamp the second call would use; only
      entries the validator dropped, and so never stored, are sent again.
      When every entry passes validation, the retry adds nothing. */
  lemma ResubmissionSkipsAll(store: seq<Job>, body: Body, now: nat)
    ensures var after := InsertMany(store, ToInsert(store, body), now).stored;
            && (forall p :: p in ToInsert(after, body) ==> !MeetsRequired(p))
            && ((forall p :: p in Payload(body) ==> MeetsRequired(p)) ==>
                  ToInsert(after, body) == [] &&
                  CountStored(Payload(body), Urls(after)) == |Payload(body)|)
  {
    var valid := Validated(ToInsert(store, body));
    var batch := StampAll(valid, now);
    var after := InsertUnordered(store, batch).stored;
    StampAllUrls(valid, now);
    InsertUnorderedUrls(store, batch);
    forall p | p in Payload(body) && MeetsRequired(p) ensures p.applyUrl in Urls(after) {
      if p.applyUrl !in Urls(store) {
        assert p in ToInsert(store, body);
        assert p in valid;
        assert p.applyUrl in PostingUrls(valid);
      }
    }
    if forall p :: p in Payload(body) ==> MeetsRequired(p) {
      CountStoredAll(Payload(body), Urls(after));
    }
  }

  lemma {:induction false} CountStoredAll(payload: seq<Posting>, existing: set<string>)
    requires forall p :: p in payload ==> p.applyUrl in existing
    ensures CountStored(payload, existing) == |payload|
  {
    if payload != [] {
      assert payload[0] in payload;
      forall p | p in payload[1..] ensures p.applyUrl in existing {
        assert p in payload;
      }
      CountStoredAll(payload[1..], existing);
    }
  }

  /** A batch of postings with distinct URLs, none of them stored, is sent
      whole: every entry is reported added and none skipped, the entries
      that pass validation are appended, and a later listing counts exactly
      that many more records, all `n` of them when every entry passes. */
  lemma FreshBatchAddsAll(store: seq<Job>, body: Body, now: nat)
    requires DistinctPostingUrls(Payload(body))
    requires Urls(store) !! PostingUrls(Payload(body))
    ensures ToInsert(store, body) == Payload(body)
    ensures CountStored(Payload(body), Urls(store)) == 0
    ensures var o := InsertMany(store, Payload(body), now);
            && o.rejected == 0
            && o.stored == store + StampAll(Validated(Payload(body)), now)
            && Listing.ListJobs(o.stored, None, None, true).Ok?
            && Listing.ListJobs(o.stored, None, None, true).value.total == |store| + |Validated(Payload(body))|
            && ((forall p :: p in Payload(body) ==> MeetsRequired(p)) ==>
                  Listing.ListJobs(o.stored, None, None, true).value.total == |store| + |Payload(body)|)
  {
    var payload := Payload(body);
    forall p | p in payload ensures p.applyUrl !in Urls(store) {
      assert p.applyUrl in PostingUrls(payload);
    }
    FilterNewKeepsAll(payload, Urls(store));
    var valid := Validated(payload);
    ValidatedDistinct(payload);
    forall u | u in PostingUrls(valid) ensures u !in Urls(store) {
      var p :| p in valid && p.applyUrl == u;
      assert p in payload;
    }
    StampAllUrls(valid, now);
    InsertUnorderedCleanIff(store, StampAll(valid, now));
    InsertUnorderedCleanAppends(store, StampAll(valid, now));
    if forall p :: p in payload ==> MeetsRequired(p) {
      ValidatedKeepsAll(payload);
    }
    assert Listing.Offset(None, None) == 0;
  }

  lemma {:induction false} FilterNewKeepsAll(payload: seq<Posting>, existing: set<string>)
    requires forall p :: p in payload ==> p.applyUrl !in existing
    ensures FilterNew(payload, existing) == payload
  {
    if payload != [] {
      assert payload[0] in payload;
      forall p | p in payload[1..] ensures p.applyUrl !in existing {
        assert p in payload;
      }
      FilterNewKeepsAll(payload[1..], existing);
    }
  }

  /** The collection behind the `Job` model: the stored records in
      insertion order. */
  class JobStore {
    var jobs: seq<Job>

    /** The unique index on `apply_url` holds, and every stored record
        passed the `required` validator. */
    ghost predicate Valid()
      reads this
    {
      UniqueUrls(jobs) && AllStorable(jobs)
    }

    constructor ()
      ensures Valid() && jobs == []
    {
      jobs := [];
    }

    /** `POST /jobs` with request body `body` at time `now`; `reachable` is
        false when the database cannot be reached. The response is the
        report, or the generic error when anything fails, an in-batch URL
        collision included; in that case the documents `insertMany` did
        commit stay stored. Entries dropped by the validator are still
        reported as added. */
    method BulkInsert(body: Body, now: nat, reachable: bool) returns (r: Result<InsertReport, ServerError>)
      requires Valid()
      modifies this
      ensures Valid()
      ensures |old(jobs)| <= |jobs| && jobs[..|old(jobs)|] == old(jobs)
      ensures !reachable ==> r == Err(InternalServerError) && jobs == old(jobs)
      ensures reachable ==> jobs == InsertMany(old(jobs), ToInsert(old(jobs), body), now).stored
      ensures ToInsert(old(jobs), body) == [] ==> jobs == old(jobs)
      ensures r.Ok? <==> reachable && DistinctPostingUrls(Validated(ToInsert(old(jobs), body)))
      ensures r.Ok? ==> jobs == old(jobs) + StampAll(Validated(ToInsert(old(jobs), body)), now)
      ensures r.Ok? ==> r.value.added == |ToInsert(old(jobs), body)|
      ensures r.Ok? ==> r.value.skipped == CountStored(Payload(body), Urls(old(jobs)))
      ensures r.Ok? ==> r.value.added + r.value.skipped == |Payload(body)|
    {
      if !reachable {
        return Err(InternalServerError);
      }
      var payload := Payload(body);
      var existingUrls := ExistingUrls(jobs, payload);
      var docsToInsert := FilterNew(payload, existingUrls);
      InsertionFacts(jobs, body, now);
      if |docsToInsert| > 0 {
        var outcome := InsertMany(jobs, docsToInsert, now);
        jobs := outcome.stored;
        if outcome.rejected > 0 {
          return Err(InternalServerError);
        }
      }
      r := Ok(InsertReport(|docsToInsert|, |payload| - |docsToInsert|));
    }
  }

  /** What `BulkInsert` relies on about one request against `store`: the
      lookup selects `ToInsert`, and `insertMany` on it keeps the index and
      the validity of every record, and rejects nothing exactly when the
      URLs of the postings that pass validation are distinct. */
  lemma InsertionFacts(store: seq<Job>, body: Body, now: nat)
    requires UniqueUrls(store) && AllStorable(store)
    ensures FilterNew(Payload(body), ExistingUrls(store, Payload(body))) == ToInsert(store, body)
    ensures var valid := Validated(ToInsert(store, body));
            var o := InsertMany(store, ToInsert(store, body), now);
            && UniqueUrls(o.stored)
            && AllStorable(o.stored)
            && (o.rejected == 0 <==> DistinctPostingUrls(valid))
            && (o.rejected == 0 ==> o.stored == store + StampAll(valid, now))
  {
    var toInsert := ToInsert(store, body);
    var valid := Validated(toInsert);
    var batch := StampAll(valid, now);
    LookupMatchesStore(store, Payload(body));
    StampAllUrls(valid, now);
    StampAllStorable(toInsert, now);
    PostingUrlsAreNew(toInsert, Urls(store), Payload(body));
    forall u | u in PostingUrls(valid) ensures u !in Urls(store) {
      var p :| p in valid && p.applyUrl == u;
      assert p.applyUrl in PostingUrls(toInsert);
    }
    InsertUnorderedKeepsUnique(store, batch);
    var o := InsertUnordered(store, batch);
    forall j | j in o.stored ensures Storable(j) {
      var i :| 0 <= i < |o.stored| && o.stored[i] == j;
      if i < |store| {
        assert o.stored[..|store|][i] == j;
        assert j in store;
      } else {
        assert o.stored[|store|..][i - |store|] == j;
        assert j in batch;
      }
    }
    InsertUnorderedCleanIff(store, batch);
    if o.rejected == 0 {
      InsertUnorderedCleanAppends(store, batch);
    }
  }

  /** The filtered entries share no URL with the store. */
  lemma PostingUrlsAreNew(toInsert: seq<Posting>, stored: set<string>, payload: seq<Posting>)
    requires toInsert == FilterNew(payload, stored)
    ensures stored !! PostingUrls(toInsert)
  {
  }

  /** Two new entries with one URL, both passing validation, in a single
      call on any store that lacks their URL: the unique index admits one
      and rejects the other, so the call fails although one record was
      committed (in batch order, the first). */
  lemma InBatchDuplicateFails(store: seq<Job>, p: Posting, q: Posting, now: nat)
    requires p.applyUrl == q.applyUrl && p.applyUrl !in Urls(store)
    requires MeetsRequired(p) && MeetsRequired(q)
    ensures InsertMany(store, FilterNew([p, q], Urls(store)), now) == InsertOutcome(store + [Stamp(p, now)], 1)
  {
    FilterNewKeepsAll([p, q], Urls(store));
    ValidatedKeepsAll([p, q]);
    var batch := StampAll([p, q], now);
    assert batch == [Stamp(p, now), Stamp(q, now)];
    assert batch[1..] == [Stamp(q, now)];
    var grown := store + [Stamp(p, now)];
    assert Stamp(p, now) in grown;
    assert Stamp(q, now).applyUrl in Urls(grown);
    assert InsertUnordered(grown, batch[1..]) == InsertOutcome(grown, 1) by {
      assert batch[1..][1..] == [];
    }
    assert InsertUnordered(store, batch) == InsertUnordered(grown, batch[1..]);
  }

  /** A new posting with an empty `job_title` is dropped by the validator
      without an error: the call reports it added, yet nothing is stored. */
  lemma DroppedPostingReportedAdded(store: seq<Job>, p: Posting, now: nat)
    requires p.applyUrl !in Urls(store) && p.jobTitle == ""
    ensures ToInsert(store, Single(p)) == [p]
    ensures CountStored(Payload(Single(p)), Urls(store)) == 0
    ensures InsertMany(store, [p], now) == InsertOutcome(store, 0)
  {
    assert [p][1..] == [];
    assert Validated([p]) == [];
  }
}
