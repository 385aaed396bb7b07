/** The job record schema of api/list.js: the fields a client posts, the
    fields the store adds, the unique index on `apply_url`, the TTL constant,
    and the single error value every handler reports. */
module JobSchema {
  import opened Wrappers

  /** The retention window of the TTL index on `createdAt`: 60 days, in seconds. */
  const RetentionSeconds: nat := 60 * 60 * 24 * 60

  /** The one error a handler ever reports; its cause is only logged. */
  datatype ServerError = InternalServerError {
    function Message(): string { "Internal server error" }
  }

  /** A date field of a posted body: left out, posted as `null`, or posted
      as a time. */
  datatype DateField = Missing | Null | At(time: nat)

  /** A job as a client submits it in the body of `POST /jobs`. A posted
      `createdAt` or `updatedAt` is `Some`; one left out or posted as `null`
      is `None`. */
  datatype Posting = Posting(
    jobTitle: string,
    jobDescription: Option<string>,
    applyUrl: string,
    companyImage: Option<string>,
    datePosted: DateField,
    createdAt: Option<nat>,
    updatedAt: Option<nat>)

  /** A stored job record: the posting plus the fields the schema fills in;
      a `datePosted` of `None` is a stored `null`. */
  datatype Job = Job(
    jobTitle: string,
    jobDescription: Option<string>,
    applyUrl: string,
    companyImage: Option<string>,
    datePosted: Option<nat>,
    createdAt: nat,
    updatedAt: nat)

  /** The record a posting becomes when it is inserted at time `now`. The
      default of `date_posted` applies only when the field was left out, so
      a posted `null` stays `null`; the timestamps are filled in only when
      the posting carries none. */
  function Stamp(p: Posting, now: nat): (j: Job)
    ensures j.applyUrl == p.applyUrl && j.jobTitle == p.jobTitle
    ensures j.jobDescription == p.jobDescription && j.companyImage == p.companyImage
    ensures p.datePosted.Missing? ==> j.datePosted == Some(now)
    ensures p.datePosted.Null? ==> j.datePosted == None
    ensures p.datePosted.At? ==> j.datePosted == Some(p.datePosted.time)
    ensures j.createdAt == (if p.createdAt.Some? then p.createdAt.value else now)
    ensures j.updatedAt == (if p.updatedAt.Some? then p.updatedAt.value else now)
  {
    var datePosted := match p.datePosted
      case Missing => Some(now)
      case Null => None
      case At(t) => Some(t);
    Job(p.jobTitle, p.jobDescription, p.applyUrl, p.companyImage,
        datePosted, p.createdAt.GetOr(now), p.updatedAt.GetOr(now))
  }

  /** Mongoose's `required` validator on a string path: the value must be a
      non-empty string. */
  predicate MeetsRequired(p: Posting) {
    p.jobTitle != "" && p.applyUrl != ""
  }

  /** A stored record has a non-empty `job_title` and `apply_url`. */
  predicate Storable(j: Job) {
    j.jobTitle != "" && j.applyUrl != ""
  }

  /** Every record of the sequence can be stored. */
  predicate AllStorable(jobs: seq<Job>) {
    forall j :: j in jobs ==> Storable(j)
  }

  /** The postings of a batch that pass validation, in batch order; the
      others are dropped before anything is written. */
  function Validated(ps: seq<Posting>): (r: seq<Posting>)
    ensures forall p :: p in r <==> p in ps && MeetsRequired(p)
    ensures |r| <= |ps|
  {
    if ps == [] then []
    else
      var rest := Validated(ps[1..]);
      assert forall p :: p in ps <==> p == ps[0] || p in ps[1..];
      if MeetsRequired(ps[0]) then [ps[0]] + rest else rest
  }

  /** Validation keeps each posting on its own terms: a single posting
      survives exactly when it passes, and a concatenation is validated
      part by part, so the survivors keep their batch order and repeats. */
  lemma {:induction false} ValidatedConcat(a: seq<Posting>, b: seq<Posting>)
    ensures Validated(a + b) == Validated(a) + Validated(b)
    ensures |a| == 1 ==> Validated(a) == (if MeetsRequired(a[0]) then a else [])
  {
    if a != [] {
      assert (a + b)[0] == a[0] && (a + b)[1..] == a[1..] + b;
      ValidatedConcat(a[1..], b);
      if |a| == 1 {
        assert a[1..] == [];
      }
    } else {
      assert a + b == b;
    }
  }

  /** A batch where every posting passes validation is kept whole. */
  lemma {:induction false} ValidatedKeepsAll(ps: seq<Posting>)
    requires forall p :: p in ps ==> MeetsRequired(p)
    ensures Validated(ps) == ps
  {
    if ps != [] {
      assert ps[0] in ps;
      forall p | p in ps[1..] ensures MeetsRequired(p) {
        assert p in ps;
      }
      ValidatedKeepsAll(ps[1..]);
    }
  }

  /** Dropping postings keeps distinct URLs distinct. */
  lemma {:induction false} ValidatedDistinct(ps: seq<Posting>)
    requires DistinctPostingUrls(ps)
    ensures DistinctPostingUrls(Validated(ps))
  {
    if ps != [] {
      var rest := ps[1..];
      forall i, k | 0 <= i < k < |rest| ensures rest[i].applyUrl != rest[k].applyUrl {
        assert rest[i] == ps[i + 1] && rest[k] == ps[k + 1];
      }
      ValidatedDistinct(rest);
      if MeetsRequired(ps[0]) {
        var v := Validated(rest);
        var t := [ps[0]] + v;
        forall i, k | 0 <= i < k < |t| ensures t[i].applyUrl != t[k].applyUrl {
          assert t[k] == v[k - 1] && v[k - 1] in rest;
          var m :| 0 <= m < |rest| && rest[m] == v[k - 1];
          assert ps[m + 1] == v[k - 1];
          if i > 0 {
            assert t[i] == v[i - 1];
          }
        }
      }
    }
  }

  /** Every record stamped from validated postings can be stored. */
  lemma StampAllStorable(ps: seq<Posting>, now: nat)
    ensures forall j :: j in StampAll(Validated(ps), now) ==> Storable(j)
  {
    var v := Validated(ps);
    forall j | j in StampAll(v, now) ensures Storable(j) {
      var i :| 0 <= i < |v| && StampAll(v, now)[i] == j;
      assert v[i] in v;
    }
  }

  /** The records `insertMany` builds from a batch of postings, in order. */
  function StampAll(ps: seq<Posting>, now: nat): (js: seq<Job>)
    ensures |js| == |ps|
    ensures forall i :: 0 <= i < |ps| ==> js[i] == Stamp(ps[i], now)
  {
    seq(|ps|, i requires 0 <= i < |ps| => Stamp(ps[i], now))
  }

  /** The `apply_url` values of a sequence of records. */
  function Urls(jobs: seq<Job>): set<string> {
    set j <- jobs :: j.applyUrl
  }

  /** The `apply_url` values of a sequence of postings. */
  function PostingUrls(ps: seq<Posting>): set<string> {
    set p <- ps :: p.applyUrl
  }

  /** The unique index on `apply_url`: no two records share a URL. */
  predicate UniqueUrls(jobs: seq<Job>) {
    forall i, k :: 0 <= i < k < |jobs| ==> jobs[i].applyUrl != jobs[k].applyUrl
  }

  /** No two postings of a batch share a URL. */
  predicate DistinctPostingUrls(ps: seq<Posting>) {
    forall i, k :: 0 <= i < k < |ps| ==> ps[i].applyUrl != ps[k].applyUrl
  }

  /** Stamping keeps each URL, so the stamped batch satisfies the unique
      index exactly when the postings have distinct URLs. */
  lemma StampAllUrls(ps: seq<Posting>, now: nat)
    ensures Urls(StampAll(ps, now)) == PostingUrls(ps)
    ensures UniqueUrls(StampAll(ps, now)) <==> DistinctPostingUrls(ps)
  {
    var js := StampAll(ps, now);
    forall u | u in PostingUrls(ps) ensures u in Urls(js) {
      var i :| 0 <= i < |ps| && ps[i].applyUrl == u;
      assert js[i] in js;
    }
    forall u | u in Urls(js) ensures u in PostingUrls(ps) {
      var i :| 0 <= i < |js| && js[i].applyUrl == u;
      assert ps[i] in ps;
    }
  }
}
