/**
 * The phishing-URL blocklist behind the HTTP API: a table of entries with
 * add, delete-by-id and list, and the verdict engine that answers "is this
 * URL blocked, flagged by the classifier, or safe".
 */
module Blocklist {
  import opened Wrappers
  import Features

  /** Creation time of an entry; recorded once, never read or changed by the store. */
  type Timestamp = int

  /** A row of the `BlocklistEntry` table. */
  datatype Entry = Entry(id: int, url: string, addedOn: Timestamp)

  /** The error replies of the API (400, 409 and 404 respectively). */
  datatype ApiError =
    | UrlRequired
    | UrlExists
    | EntryNotFound

  /** A reply: the success payload or one of the error replies. */
  datatype Response<T> = Ok(value: T) | Err(error: ApiError)

  /** The three answers of the check endpoint. */
  datatype Verdict = Blocked | FlaggedByModel | Safe

  /** The body of a successful check: the verdict and the URL it is about. */
  datatype CheckReply = CheckReply(verdict: Verdict, url: string)

  /**
   * The optional trained model the check endpoint may consult. `predict`
   * scores one feature vector; 1 means phishing.
   */
  datatype Classifier = NoClassifier | Model(predict: seq<int> -> int)

  /**
   * The `url` field of a request body is falsy: absent (`None`) or the empty
   * string. Both are rejected with "URL is required".
   */
  predicate Missing(url: Option<string>)
  {
    url.None? || url.value == ""
  }

  /**
   * The table invariant: ids are a primary key, URLs are unique, and every
   * stored URL is non-empty (the API never stores a falsy URL).
   */
  ghost predicate WellFormed(es: seq<Entry>)
  {
    && UniqueIds(es)
    && (forall i, j :: 0 <= i < j < |es| ==> es[i].url != es[j].url)
    && (forall i :: 0 <= i < |es| ==> es[i].url != "")
  }

  /** No two rows share an id. */
  ghost predicate UniqueIds(es: seq<Entry>)
  {
    forall i, j :: 0 <= i < j < |es| ==> es[i].id != es[j].id
  }

  /** `BlocklistEntry.query.filter_by(url=url).first()`: an entry whose URL equals `url` exactly. */
  function Lookup(es: seq<Entry>, url: string): (r: Option<Entry>)
    ensures r.Some? ==> r.value in es && r.value.url == url
    ensures r.None? <==> forall e :: e in es ==> e.url != url
  {
    if es == [] then None
    else if es[0].url == url then Some(es[0])
    else Lookup(es[1..], url)
  }

  /** `BlocklistEntry.query.get(id)`: the entry whose primary key is `id`. */
  function FindById(es: seq<Entry>, id: int): (r: Option<Entry>)
    ensures r.Some? ==> r.value in es && r.value.id == id
    ensures r.None? <==> forall e :: e in es ==> e.id != id
  {
    if es == [] then None
    else if es[0].id == id then Some(es[0])
    else FindById(es[1..], id)
  }

  /** The largest id in a non-empty table. */
  function MaxId(es: seq<Entry>): (m: int)
    requires es != []
    ensures forall e :: e in es ==> e.id <= m
    ensures exists e :: e in es && e.id == m
  {
    if |es| == 1 then es[0].id
    else
      var rest := MaxId(es[1..]);
      assert forall e :: e in es[1..] ==> e in es;
      if es[0].id >= rest then es[0].id else rest
  }

  /**
   * The id the storage engine gives a new row whose id the application leaves
   * unset: one more than the largest id in the table, or 1 for an empty table.
   */
  function NextId(es: seq<Entry>): (id: int)
    ensures forall e :: e in es ==> e.id < id
    ensures es == [] ==> id == 1
  {
    if es == [] then 1 else MaxId(es) + 1
  }

  /** The table after deleting every row whose id is `id`, the others kept in order. */
  function Without(es: seq<Entry>, id: int): (r: seq<Entry>)
    ensures forall e :: e in r <==> e in es && e.id != id
    ensures |r| <= |es|
  {
    if es == [] then []
    else (if es[0].id == id then [] else [es[0]]) + Without(es[1..], id)
  }

  /** Deleting an id no row carries changes nothing. */
  lemma {:induction false} WithoutAbsent(es: seq<Entry>, id: int)
    requires forall e :: e in es ==> e.id != id
    ensures Without(es, id) == es
  {
    if es != [] {
      assert es[0] in es;
      assert forall e :: e in es[1..] ==> e in es;
      WithoutAbsent(es[1..], id);
    }
  }

  /** A table with one row taken out still satisfies the invariant. */
  lemma RemoveAtWellFormed(es: seq<Entry>, k: int)
    requires WellFormed(es) && 0 <= k < |es|
    ensures WellFormed(es[..k] + es[k + 1..])
  {
  }

  /** The rows after the first still have unique ids, none of them the first row's. */
  lemma TailUniqueIds(es: seq<Entry>)
    requires UniqueIds(es) && es != []
    ensures UniqueIds(es[1..])
    ensures forall e :: e in es[1..] ==> e.id != es[0].id
  {
  }

  /**
   * In a table with unique ids, deleting the id of row `k` removes exactly that
   * row and keeps every other row, in order.
   */
  lemma {:induction false} WithoutRemovesOnlyAt(es: seq<Entry>, id: int, k: int)
    requires UniqueIds(es) && 0 <= k < |es| && es[k].id == id
    ensures Without(es, id) == es[..k] + es[k + 1..]
  {
    var tail := es[1..];
    TailUniqueIds(es);
    if k == 0 {
      WithoutAbsent(tail, id);
      assert es[..0] + es[1..] == tail;
    } else {
      WithoutRemovesOnlyAt(tail, id, k - 1);
      assert Without(es, id) == [es[0]] + (tail[..k - 1] + tail[k..]);
      assert tail[..k - 1] == es[1..k] && tail[k..] == es[k + 1..];
      assert [es[0]] + es[1..k] == es[..k];
    }
  }

  /** The blocklist table: the state the API's requests share and update in place. */
  class Store {
    var entries: seq<Entry>

    ghost predicate Valid()
      reads this
    {
      WellFormed(entries)
    }

    /** A freshly created, empty table. */
    constructor ()
      ensures Valid() && entries == []
    {
      entries := [];
    }

    /** GET /blocklist: every entry of the table; reading it changes nothing. */
    function List(): (r: seq<Entry>)
      requires Valid()
      reads this
      ensures r == entries
      ensures WellFormed(r)
    {
      entries
    }

    /**
     * POST /blocklist. A missing or empty URL is rejected, a URL already in the
     * table (exact string equality) is rejected, otherwise a row with a fresh id,
     * that URL and the time `now` is appended and the URL is echoed back.
     */
    method Add(url: Option<string>, now: Timestamp) returns (r: Response<string>)
      requires Valid()
      modifies this
      ensures Valid()
      ensures r == Err(UrlRequired) <==> Missing(url)
      ensures r == Err(UrlExists) <==> !Missing(url) && exists e :: e in old(entries) && e.url == url.value
      ensures r.Ok? <==> !Missing(url) && forall e :: e in old(entries) ==> e.url != url.value
      ensures r.Err? ==> entries == old(entries)
      ensures r.Ok? ==> r.value == url.value
      ensures r.Ok? ==> entries == old(entries) + [Entry(NextId(old(entries)), url.value, now)]
      ensures r.Ok? ==> forall e :: e in old(entries) ==> e.id != NextId(old(entries)) && e.url != url.value
    {
      if Missing(url) {
        return Err(UrlRequired);
      }
      if Lookup(entries, url.value).Some? {
        return Err(UrlExists);
      }
      var added := Entry(NextId(entries), url.value, now);
      assert forall i :: 0 <= i < |entries| ==> entries[i] in entries;
      entries := entries + [added];
      r := Ok(url.value);
    }

    /**
     * DELETE /blocklist/<id>. An id no row carries is answered with "not found"
     * and changes nothing; otherwise exactly that row is removed and the id is
     * echoed back. Afterwards no row carries the id, so a second delete of the
     * same id fails.
     */
    method Delete(id: nat) returns (r: Response<nat>)
      requires Valid()
      modifies this
      ensures Valid()
      ensures r == Err(EntryNotFound) <==> forall e :: e in old(entries) ==> e.id != id
      ensures r.Err? ==> r.error == EntryNotFound && entries == old(entries)
      ensures r.Ok? ==> r.value == id
      ensures r.Ok? ==> exists k :: 0 <= k < |old(entries)| && old(entries)[k].id == id
                                    && entries == old(entries)[..k] + old(entries)[k + 1..]
      ensures forall e :: e in entries ==> e.id != id
    {
      var found := FindById(entries, id);
      if found.None? {
        return Err(EntryNotFound);
      }
      ghost var k :| 0 <= k < |entries| && entries[k] == found.value;
      WithoutRemovesOnlyAt(entries, id, k);
      RemoveAtWellFormed(entries, k);
      entries := Without(entries, id);
      r := Ok(id);
    }

    /**
     * POST /blocklist/check. A missing or empty URL is rejected. A URL in the
     * table is blocked whatever the classifier would say; only on a miss is the
     * classifier (if any) asked about the URL's features; without a classifier
     * a miss is safe. The table is only read.
     */
    function Check(url: Option<string>, classifier: Classifier): (r: Response<CheckReply>)
      reads this
      ensures r.Err? <==> Missing(url)
      ensures r.Err? ==> r.error == UrlRequired
      ensures r.Ok? ==> r.value.url == url.value
      ensures r.Ok? ==> (r.value.verdict == Blocked <==> exists e :: e in entries && e.url == url.value)
      ensures r.Ok? ==> (r.value.verdict == FlaggedByModel <==>
                          (forall e :: e in entries ==> e.url != url.value)
                          && classifier.Model?
                          && classifier.predict(Features.ExtractFeatures(url.value)) == 1)
      ensures r.Ok? && classifier.NoClassifier? ==>
                (r.value.verdict == Safe <==> forall e :: e in entries ==> e.url != url.value)
    {
      if Missing(url) then Err(UrlRequired)
      else if Lookup(entries, url.value).Some? then Ok(CheckReply(Blocked, url.value))
      else match classifier
        case NoClassifier => Ok(CheckReply(Safe, url.value))
        case Model(predict) =>
          if predict(Features.ExtractFeatures(url.value)) == 1 then Ok(CheckReply(FlaggedByModel, url.value))
          else Ok(CheckReply(Safe, url.value))
    }
  }

  /** Deleting the same id twice: whatever the first call does, the second is "not found". */
  method DeleteTwice(s: Store, id: nat) returns (first: Response<nat>, second: Response<nat>)
    requires s.Valid()
    modifies s
    ensures s.Valid()
    ensures first.Ok? <==> exists e :: e in old(s.entries) && e.id == id
    ensures second == Err(EntryNotFound)
  {
    first := s.Delete(id);
    second := s.Delete(id);
  }

  /** A URL that was just added is blocked, whatever classifier is configured. */
  method AddThenCheck(s: Store, url: string, now: Timestamp, classifier: Classifier)
    returns (added: Response<string>, checked: Response<CheckReply>)
    requires s.Valid() && url != ""
    modifies s
    ensures s.Valid()
    ensures checked == Ok(CheckReply(Blocked, url))
  {
    added := s.Add(Some(url), now);
    if added.Ok? {
      assert s.entries[|s.entries| - 1].url == url;
    }
    checked := s.Check(Some(url), classifier);
  }

  /** Example requests replayed on a fresh table. */
  method Scenarios(classifier: Classifier)
  {
    var s := new Store();
    var login := "http://evil.example/login";
    var added := s.Add(Some(login), 0);
    assert added == Ok(login) && s.entries == [Entry(1, login, 0)];
    var checked := s.Check(Some(login), classifier);
    assert checked == Ok(CheckReply(Blocked, login));
    var again := s.Add(Some(login), 1);
    assert again == Err(UrlExists);

    var empty := new Store();
    var safe := empty.Check(Some("https://safe.example"), NoClassifier);
    assert safe == Ok(CheckReply(Safe, "https://safe.example"));
    var missing := empty.Delete(999);
    assert missing == Err(EntryNotFound);
    var blank := empty.Check(Some(""), classifier);
    assert blank == Err(UrlRequired);
  }
}
