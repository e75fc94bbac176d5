/** The link handlers of the TinyLink API server as methods on the `links`
    table: create (with its validation order and bounded random-code loop),
    list, stats lookup, delete and the click-counting redirect. Each handler
    runs its checks and then makes at most one change to the table. */
module LinkServer {
  import opened LinkRules

  /** The success body of a create: the INSERT's RETURNING columns (code, url,
      clicks, createdAt, but not lastClicked) plus the short URL. */
  datatype Created = Created(code: string, url: string, clicks: nat, createdAt: Timestamp, shortUrl: string)

  /** What the redirect route does: hand the request on to later routes, send
      an HTTP redirect, or answer with an error status. */
  datatype RedirectReply = PassThrough | RedirectTo(url: string) | Failed(error: Failure)

  /** The record after one followed redirect: one more click, clicked now. */
  function Clicked(l: Link, now: Timestamp): Link
  {
    l.(clicks := l.clicks + 1, lastClicked := Some(now))
  }

  /** What no handler ever changes in a record that survives a request: its
      url and creation time; and its click count never goes down. */
  ghost predicate RecordsEvolve(before: Table, after: Table) {
    forall c :: c in before && c in after ==>
      && after[c].url == before[c].url
      && after[c].createdAt == before[c].createdAt
      && after[c].clicks >= before[c].clicks
  }

  /** A followed redirect changes only the followed record, and only in its
      click fields. */
  lemma ClickEvolves(t: Table, c: string, now: Timestamp)
    requires c in t
    ensures RecordsEvolve(t, t[c := Clicked(t[c], now)])
    ensures t[c := Clicked(t[c], now)] - {c} == t - {c}
  {
  }

  /** The record after it has been followed at each of `times`, in order. */
  function ClickedAt(l: Link, times: seq<Timestamp>): Link
    decreases |times|
  {
    if times == [] then l else ClickedAt(Clicked(l, times[0]), times[1..])
  }

  /** Following a record n times adds n clicks and leaves the time of the last
      follow as lastClicked; its url and creation time never change. */
  lemma {:induction false} ClickedAtCounts(l: Link, times: seq<Timestamp>)
    ensures ClickedAt(l, times).url == l.url && ClickedAt(l, times).createdAt == l.createdAt
    ensures ClickedAt(l, times).clicks == l.clicks + |times|
    ensures ClickedAt(l, times).lastClicked == if times == [] then l.lastClicked else Some(times[|times| - 1])
    decreases |times|
  {
    if times != [] {
      ClickedAtCounts(Clicked(l, times[0]), times[1..]);
    }
  }

  /** A link created at `created` and then followed at `times` counts exactly
      its follows, was last clicked at the last of them (never, if there were
      none), and still has its url and creation time. */
  lemma FollowedNewLink(url: string, created: Timestamp, times: seq<Timestamp>)
    ensures ClickedAt(NewLink(url, created), times)
      == Link(url, |times|, if times == [] then None else Some(times[|times| - 1]), created)
  {
    ClickedAtCounts(NewLink(url, created), times);
  }

  class LinkTable {
    /** The contents of the `links` table, keyed by code. */
    var links: Table
    /** BASE_URL, the public address short URLs start with. */
    const baseUrl: string
    /** The URL library's `isWebUri`, taken as given. */
    const isWebUri: string -> bool

    /** The `url` of a create request passes the first check: it is present,
        not the empty string (which JavaScript treats as false) and a web URI. */
    predicate UrlAccepted(url: Option<string>) {
      url.Some? && url.value != [] && isWebUri(url.value)
    }

    /** What every stored row satisfies: its code has the accepted format, its
        url passed the URL check, its click count fits the INTEGER column, and
        it has a last-click time exactly when it has been clicked. */
    predicate WellFormed(code: string, l: Link) {
      && ValidCode(code)
      && UrlAccepted(Some(l.url))
      && l.clicks <= MaxInt32
      && (l.clicks == 0 <==> l.lastClicked.None?)
    }

    ghost predicate Valid()
      reads this
    {
      forall c :: c in links ==> WellFormed(c, links[c])
    }

    /** The table as the bootstrap first creates it: empty. A restarted
        server instead finds the rows earlier runs left, which satisfy Valid
        because every handler keeps it. */
    constructor (baseUrl: string, isWebUri: string -> bool)
      ensures Valid()
      ensures links == map[] && this.baseUrl == baseUrl && this.isWebUri == isWebUri
    {
      this.baseUrl := baseUrl;
      this.isWebUri := isWebUri;
      links := map[];
    }

    /** The record create inserts is a valid row under any accepted code and
        url. */
    lemma NewLinkWellFormed(c: string, url: string, now: Timestamp)
      requires ValidCode(c) && UrlAccepted(Some(url))
      ensures WellFormed(c, NewLink(url, now))
    {
    }

    /** One more click keeps a valid row valid exactly when its counter is
        not yet full: at MaxInt32 the INTEGER column would overflow. */
    lemma ClickedWellFormed(c: string, l: Link, now: Timestamp)
      requires WellFormed(c, l)
      ensures WellFormed(c, Clicked(l, now)) <==> l.clicks < MaxInt32
    {
    }

    /** A valid row followed at `times` stays valid as long as its counter has
        room for all of them. */
    lemma FollowedWellFormed(c: string, l: Link, times: seq<Timestamp>)
      requires WellFormed(c, l) && l.clicks + |times| <= MaxInt32
      ensures WellFormed(c, ClickedAt(l, times))
    {
      ClickedAtCounts(l, times);
    }

    /** The generation loop of the create handler: draw six-character
        candidates until one is not in the table, giving up after the
        MaxRetries + 1'th collision. */
    method GenerateCode(draws: Draws) returns (r: Option<string>)
      ensures r.None? <==> AllCandidatesTaken(links.Keys, draws)
      ensures r.Some? ==> exists k :: FirstFreeAt(links.Keys, draws, k) && r.value == Candidate(draws, k)
    {
      var tries: nat := 0;
      while true
        invariant tries <= MaxRetries
        invariant forall j :: 0 <= j < tries ==> Candidate(draws, j) in links
        decreases MaxRetries - tries
      {
        var code := Candidate(draws, tries);
        if code !in links {
          assert FirstFreeAt(links.Keys, draws, tries);
          FirstFreeUnique(links.Keys, draws, tries, tries);
          return Some(code);
        }
        tries := tries + 1;
        if tries > MaxRetries {
          return None;
        }
      }
    }

    /** The checks of POST /api/links, in the handler's order, up to the
        INSERT: the code to insert, or the error reply. Reads the table only. */
    method ChooseCode(url: Option<string>, code: CodeField, draws: Draws) returns (d: Result<string>)
      // the URL is checked first, whatever the code
      ensures !UrlAccepted(url) ==> d == Err(InvalidUrl)
      // a code that is not a string makes `trim` throw
      ensures UrlAccepted(url) && NormalizeCode(code).NotAString? ==> d == Err(ServerError)
      // a supplied (trimmed, non-blank) code: format, then conflict, then used as is
      ensures UrlAccepted(url) && NormalizeCode(code).Given? ==>
        var c := NormalizeCode(code).code;
        && (!ValidCode(c) ==> d == Err(InvalidCode))
        && (ValidCode(c) && c in links ==> d == Err(CodeExists))
        && (ValidCode(c) && c !in links ==> d == Ok(c))
      // no code: the first free candidate, or failure once all are taken
      ensures UrlAccepted(url) && NormalizeCode(code).Absent? ==>
        && (AllCandidatesTaken(links.Keys, draws) ==> d == Err(GenerationFailed))
        && (!AllCandidatesTaken(links.Keys, draws) ==>
              d.Ok? && exists k :: FirstFreeAt(links.Keys, draws, k) && d.value == Candidate(draws, k))
      // whatever is chosen is free, well formed and comes with an accepted URL
      ensures d.Ok? ==> UrlAccepted(url) && d.value !in links && ValidCode(d.value)
    {
      if !UrlAccepted(url) {
        return Err(InvalidUrl);
      }
      var requested := NormalizeCode(code);
      if requested.NotAString? {
        return Err(ServerError);
      }
      if requested.Given? && !ValidCode(requested.code) {
        return Err(InvalidCode);
      }
      if requested.Given? {
        if requested.code in links {
          return Err(CodeExists);
        }
        return Ok(requested.code);
      }
      var generated := GenerateCode(draws);
      if generated.None? {
        return Err(GenerationFailed);
      }
      ghost var k :| FirstFreeAt(links.Keys, draws, k) && generated.value == Candidate(draws, k);
      CandidateIsValidCode(draws, k);
      d := Ok(generated.value);
    }

    /** POST /api/links: the checks of ChooseCode, then one INSERT. */
    method Create(url: Option<string>, code: CodeField, draws: Draws, now: Timestamp) returns (r: Result<Created>)
      requires Valid()
      modifies this
      ensures Valid()
      // the reply is ChooseCode's error, or the row inserted under its code
      ensures !UrlAccepted(url) ==> r == Err(InvalidUrl)
      ensures UrlAccepted(url) && NormalizeCode(code).NotAString? ==> r == Err(ServerError)
      ensures UrlAccepted(url) && NormalizeCode(code).Given? ==>
        var c := NormalizeCode(code).code;
        && (!ValidCode(c) ==> r == Err(InvalidCode))
        && (ValidCode(c) && c in old(links) ==> r == Err(CodeExists))
        && (ValidCode(c) && c !in old(links) ==> r.Ok? && r.value.code == c)
      ensures UrlAccepted(url) && NormalizeCode(code).Absent? ==>
        && (AllCandidatesTaken(old(links).Keys, draws) ==> r == Err(GenerationFailed))
        && (!AllCandidatesTaken(old(links).Keys, draws) ==>
              r.Ok? && exists k :: FirstFreeAt(old(links).Keys, draws, k) && r.value.code == Candidate(draws, k))
      // nothing changes on an error
      ensures r.Err? ==> links == old(links)
      // success adds exactly one new record, with the column defaults
      ensures r.Ok? ==>
        && UrlAccepted(url)
        && r.value.code !in old(links)
        && links == old(links)[r.value.code := NewLink(url.value, now)]
        && |links| == |old(links)| + 1
        && r.value == Created(r.value.code, url.value, 0, now, ShortUrl(baseUrl, r.value.code))
      ensures RecordsEvolve(old(links), links)
    {
      var chosen := ChooseCode(url, code, draws);
      if chosen.Err? {
        return Err(chosen.error);
      }
      var c := chosen.value;
      links := links[c := NewLink(url.value, now)];
      r := Ok(Created(c, url.value, 0, now, ShortUrl(baseUrl, c)));
    }

    /** GET /api/links: every record, newest first. The database's sort is
        modelled by choosing any listing of that order; rows created at the
        same instant may come in either order. */
    method List() returns (rows: seq<Row>)
      ensures IsNewestFirstListing(links, rows)
    {
      ghost var listing := ListingExists(links);
      rows :| IsNewestFirstListing(links, rows);
    }

    /** GET /api/links/:code: the record, or not found; nothing changes. */
    method Get(code: string) returns (r: Result<Row>)
      ensures r.Ok? <==> code in links
      ensures r.Ok? ==> r.value == RowOf(code, links[code]) && r.value.code == code
      ensures r.Err? ==> r.error == NotFound
    {
      if code !in links {
        return Err(NotFound);
      }
      r := Ok(RowOf(code, links[code]));
    }

    /** DELETE /api/links/:code: removes exactly that record, or not found. */
    method Delete(code: string) returns (r: Result<()>)
      requires Valid()
      modifies this
      ensures Valid()
      ensures r.Ok? <==> code in old(links)
      ensures r.Err? ==> r.error == NotFound && links == old(links)
      ensures links == old(links) - {code}
      ensures r.Ok? ==> |links| == |old(links)| - 1
      ensures RecordsEvolve(old(links), links)
    {
      if code !in links {
        return Err(NotFound);
      }
      links := links - {code};
      r := Ok(());
    }

    /** GET /:code: reserved codes go on to later routes; an unknown code is
        not found; a known one gets one more click and is redirected to. The
        UPDATE fails (a server error) when the INTEGER click count is full. */
    method Redirect(code: string, now: Timestamp) returns (r: RedirectReply)
      requires Valid()
      modifies this
      ensures Valid()
      ensures IsReserved(code) ==> r == PassThrough && links == old(links)
      ensures !IsReserved(code) && code !in old(links) ==> r == Failed(NotFound) && links == old(links)
      ensures !IsReserved(code) && code in old(links) && old(links)[code].clicks == MaxInt32 ==>
        r == Failed(ServerError) && links == old(links)
      ensures !IsReserved(code) && code in old(links) && old(links)[code].clicks < MaxInt32 ==>
        && r == RedirectTo(old(links)[code].url)
        && links == old(links)[code := Clicked(old(links)[code], now)]
      ensures RecordsEvolve(old(links), links)
    {
      if IsReserved(code) {
        return PassThrough;
      }
      if code !in links {
        return Failed(NotFound);
      }
      var target := links[code].url;
      if links[code].clicks >= MaxInt32 {
        return Failed(ServerError);
      }
      links := links[code := Clicked(links[code], now)];
      r := RedirectTo(target);
    }
  }

  // ---------------------------------------------------------------------------
  // Request sequences

  /** After a delete, both the stats lookup and the redirect report not found. */
  method DeletedCodeIsGone(t: LinkTable, code: string, now: Timestamp)
      returns (got: Result<Row>, followed: RedirectReply)
    requires t.Valid() && !IsReserved(code)
    modifies t
    ensures t.Valid()
    ensures got == Err(NotFound) && followed == Failed(NotFound)
    ensures t.links == old(t.links) - {code}
  {
    var _ := t.Delete(code);
    got := t.Get(code);
    followed := t.Redirect(code, now);
  }

  /** Creating twice with the same valid code: the first succeeds, the second
      conflicts and inserts nothing. */
  method SameCodeTwice(t: LinkTable, url: string, code: string, draws: Draws, now: Timestamp)
      returns (first: Result<Created>, second: Result<Created>)
    requires t.Valid() && t.UrlAccepted(Some(url)) && ValidCode(code) && code !in t.links
    modifies t
    ensures t.Valid()
    ensures first.Ok? && first.value.code == code && second == Err(CodeExists)
    ensures t.links == old(t.links)[code := NewLink(url, now)]
  {
    PaddedCodeNormalizes([], code, []);
    assert [] + code + [] == code;
    first := t.Create(Some(url), CodeText(code), draws, now);
    second := t.Create(Some(url), CodeText(code), draws, now);
  }

  /** A created link, once followed, shows one click at the redirect time. */
  method CreateThenFollow(t: LinkTable, url: string, draws: Draws, created: Timestamp, now: Timestamp)
      returns (made: Result<Created>, followed: RedirectReply, got: Result<Row>)
    requires t.Valid() && t.UrlAccepted(Some(url))
    modifies t
    ensures t.Valid()
    ensures made.Ok? ==>
      var c := made.value.code;
      && !IsReserved(c)
      && followed == RedirectTo(url)
      && got == Ok(Row(c, url, 1, Some(now), created))
  {
    made := t.Create(Some(url), NoCode, draws, created);
    if made.Err? {
      followed, got := PassThrough, Err(NotFound);
      return;
    }
    var c := made.value.code;
    assert t.links[c] == NewLink(url, created);
    assert !IsReserved(c) by { assert ValidCode(c); }
    followed := t.Redirect(c, now);
    got := t.Get(c);
  }
}
