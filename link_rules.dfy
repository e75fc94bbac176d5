/** The pure rules applied by the TinyLink link handlers: the shape of a link
    record, the short-code format, JavaScript's String.prototype.trim, the
    random-code alphabet, the reserved redirect codes, the short URL and the
    "newest first" listing order. The stateful handlers live in LinkServer. */
module LinkRules {

  // ---------------------------------------------------------------------------
  // Records

  /** A point in time, as the database's TIMESTAMP columns hold it. */
  type Timestamp = int

  /** Largest value of a Postgres INTEGER column (the type of `clicks`). */
  const MaxInt32: int := 0x7fff_ffff

  /** One row of the `links` table without its code, which is the table's key. */
  datatype Link = Link(url: string, clicks: nat, lastClicked: Option<Timestamp>, createdAt: Timestamp)

  datatype Option<T> = None | Some(value: T)

  /** The link table: code -> record (the UNIQUE column `code` as the key). */
  type Table = map<string, Link>

  /** A row as the list and stats handlers return it. */
  datatype Row = Row(code: string, url: string, clicks: nat, lastClicked: Option<Timestamp>, createdAt: Timestamp)

  function RowOf(code: string, l: Link): Row {
    Row(code, l.url, l.clicks, l.lastClicked, l.createdAt)
  }

  /** The record INSERT creates from the column defaults: no clicks yet, never
      clicked, created now. */
  function NewLink(url: string, now: Timestamp): Link
  {
    Link(url, 0, None, now)
  }

  // ---------------------------------------------------------------------------
  // Errors

  /** The handlers' error replies. Status and Message document the HTTP
      status and the error text each one is sent with (server/index.js:49-139);
      the handlers' contracts speak of the Failure itself. */
  datatype Failure = InvalidUrl | InvalidCode | CodeExists | GenerationFailed | NotFound | ServerError
  {
    function Status(): int {
      match this
      case InvalidUrl => 400
      case InvalidCode => 400
      case CodeExists => 409
      case NotFound => 404
      case GenerationFailed => 500
      case ServerError => 500
    }

    function Message(): string {
      match this
      case InvalidUrl => "Invalid URL"
      case InvalidCode => "Code must be 6-8 alphanumeric characters"
      case CodeExists => "Code already exists"
      case GenerationFailed => "Failed to generate unique code"
      case NotFound => "Not found"
      case ServerError => "Server error"
    }
  }

  datatype Result<T> = Ok(value: T) | Err(error: Failure)

  // ---------------------------------------------------------------------------
  // The code format /^[A-Za-z0-9]{6,8}$/

  predicate IsAsciiAlnum(c: char) {
    'A' <= c <= 'Z' || 'a' <= c <= 'z' || '0' <= c <= '9'
  }

  predicate AllAsciiAlnum(s: string) {
    forall i :: 0 <= i < |s| ==> IsAsciiAlnum(s[i])
  }

  /** The regular expression of the create handler: 6 to 8 ASCII letters or
      digits, nothing else (JavaScript's `$` without the m flag matches only
      at the end of the input). */
  predicate ValidCode(s: string) {
    6 <= |s| <= 8 && AllAsciiAlnum(s)
  }

  // ---------------------------------------------------------------------------
  // String.prototype.trim

  /** ECMAScript WhiteSpace and LineTerminator code points, which trim strips. */
  predicate IsJsWhitespace(c: char) {
    var n := c as int;
    || (0x09 <= n <= 0x0D)                    // tab, line feed, vertical tab, form feed, carriage return
    || n == 0x20 || n == 0xA0 || n == 0x1680  // space, no-break space, ogham space mark
    || (0x2000 <= n <= 0x200A)                // en quad .. hair space
    || n == 0x2028 || n == 0x2029             // line and paragraph separators
    || n == 0x202F || n == 0x205F || n == 0x3000
    || n == 0xFEFF                            // byte order mark
  }

  predicate AllWhitespace(s: string) {
    forall i :: 0 <= i < |s| ==> IsJsWhitespace(s[i])
  }

  /** The index of the first non-whitespace character at or after `i`, or
      |s| if there is none: where `trim` starts keeping characters. */
  function TrimStartIndex(s: string, i: nat): (k: nat)
    requires i <= |s|
    ensures i <= k <= |s|
    ensures forall m :: i <= m < k ==> IsJsWhitespace(s[m])
    ensures k == |s| || !IsJsWhitespace(s[k])
    decreases |s| - i
  {
    if i < |s| && IsJsWhitespace(s[i]) then TrimStartIndex(s, i + 1) else i
  }

  /** One past the last non-whitespace character of s[lo..j], or `lo` if
      there is none: where `trim` stops keeping characters. */
  function TrimEndIndex(s: string, lo: nat, j: nat): (k: nat)
    requires lo <= j <= |s|
    ensures lo <= k <= j
    ensures forall m :: k <= m < j ==> IsJsWhitespace(s[m])
    ensures k == lo || !IsJsWhitespace(s[k - 1])
    decreases j
  {
    if lo < j && IsJsWhitespace(s[j - 1]) then TrimEndIndex(s, lo, j - 1) else j
  }

  /** JavaScript's `s.trim()`: `s` without its leading and trailing whitespace.
      The result is a factor s[i..j] with only whitespace outside it, and it
      neither starts nor ends with whitespace. */
  function Trim(s: string): (r: string)
    ensures exists i, j :: 0 <= i <= j <= |s| && r == s[i..j]
                           && (forall m :: 0 <= m < i ==> IsJsWhitespace(s[m]))
                           && (forall m :: j <= m < |s| ==> IsJsWhitespace(s[m]))
    ensures r == [] || (!IsJsWhitespace(r[0]) && !IsJsWhitespace(r[|r| - 1]))
  {
    var i := TrimStartIndex(s, 0);
    var j := TrimEndIndex(s, i, |s|);
    assert i < j ==> s[i..j][0] == s[i] && s[i..j][j - i - 1] == s[j - 1];
    s[i..j]
  }

  /** Trim is determined by that description: whenever s[i..j] has only
      whitespace around it and neither starts nor ends with whitespace (or
      s is all whitespace), it is the trimmed string. */
  lemma TrimUnique(s: string, i: nat, j: nat)
    requires i <= j <= |s|
    requires forall m :: 0 <= m < i ==> IsJsWhitespace(s[m])
    requires forall m :: j <= m < |s| ==> IsJsWhitespace(s[m])
    requires i == j || (!IsJsWhitespace(s[i]) && !IsJsWhitespace(s[j - 1]))
    ensures Trim(s) == s[i..j]
  {
    var i' := TrimStartIndex(s, 0);
    if i < j {
      assert i' == i;
      var j' := TrimEndIndex(s, i', |s|);
      assert j' == j;
    } else {
      assert AllWhitespace(s) by {
        forall m | 0 <= m < |s| ensures IsJsWhitespace(s[m]) {
          if m >= i { assert m >= j; }
        }
      }
      assert i' == |s|;
    }
  }

  /** Trimming leaves nothing exactly when the string is all whitespace. */
  lemma TrimBlank(s: string)
    ensures Trim(s) == [] <==> AllWhitespace(s)
  {
    if AllWhitespace(s) {
      TrimUnique(s, 0, 0);
    }
    if Trim(s) == [] {
      var i, j :| 0 <= i <= j <= |s| && Trim(s) == s[i..j]
                  && (forall m :: 0 <= m < i ==> IsJsWhitespace(s[m]))
                  && (forall m :: j <= m < |s| ==> IsJsWhitespace(s[m]));
      assert i == j;
    }
  }

  // ---------------------------------------------------------------------------
  // The optional `code` field of a create request

  /** What the JSON body holds under `code`: nothing (absent or null), a
      string, or some other JSON value (number, boolean, array, object). */
  datatype CodeField = NoCode | CodeText(text: string) | CodeNonText

  /** The value of `code?.trim() || null`: no code, a non-blank trimmed code,
      or the TypeError that calling `trim` on a non-string raises. */
  datatype RequestedCode = Absent | Given(code: string) | NotAString

  function NormalizeCode(f: CodeField): (n: RequestedCode)
    ensures n.NotAString? <==> f.CodeNonText?
    ensures n.Absent? <==> f.NoCode? || (f.CodeText? && AllWhitespace(f.text))
    ensures n.Given? ==> f.CodeText? && n.code == Trim(f.text) && n.code != []
  {
    match f
    case NoCode => Absent
    case CodeNonText => NotAString
    case CodeText(s) =>
      var t := Trim(s);
      TrimBlank(s);
      if t == [] then Absent else Given(t)
  }

  /** A valid code survives the create handler's normalisation unchanged,
      whatever whitespace surrounds it in the request. */
  lemma PaddedCodeNormalizes(before: string, c: string, after: string)
    requires ValidCode(c)
    requires AllWhitespace(before) && AllWhitespace(after)
    ensures NormalizeCode(CodeText(before + c + after)) == Given(c)
  {
    var s := before + c + after;
    var i, j := |before|, |before| + |c|;
    assert s[i..j] == c;
    assert forall m :: 0 <= m < i ==> s[m] == before[m];
    assert forall m :: j <= m < |s| ==> s[m] == after[m - j];
    TrimUnique(s, i, j);
  }

  // ---------------------------------------------------------------------------
  // Random code generation

  /** Length of a generated code. */
  const CodeLength: nat := 6

  /** How many collisions the generation loop tolerates before giving up:
      it fails once `tries > MaxRetries`, after MaxRetries + 1 candidates. */
  const MaxRetries: nat := 10

  /** The `chars` string of the create handler, written in its three ranges. */
  const Alphabet: string := "ABCDEFGHIJKLMNOPQRSTUVWXYZ" + "abcdefghijklmnopqrstuvwxyz" + "0123456789"

  /** A value of `Math.floor(Math.random() * chars.length)`. */
  type CharIndex = i: int | 0 <= i < 62

  /** The random source: the n-th character index the handler draws. */
  type Draws = nat -> CharIndex

  lemma AlphabetIsAlnum()
    ensures |Alphabet| == 62 && AllAsciiAlnum(Alphabet)
  {
    assert AllAsciiAlnum("ABCDEFGHIJKLMNOPQRSTUVWXYZ");
    assert AllAsciiAlnum("abcdefghijklmnopqrstuvwxyz");
    assert AllAsciiAlnum("0123456789");
  }

  /** The candidate built on attempt `k` (0-based): six characters, the k-th
      block of six draws, each mapped through the alphabet. */
  function Candidate(draws: Draws, k: nat): (c: string)
    ensures |c| == CodeLength
    ensures forall i :: 0 <= i < |c| ==> c[i] in Alphabet
  {
    AlphabetIsAlnum();
    seq(CodeLength, i requires 0 <= i < CodeLength => Alphabet[draws(CodeLength * k + i)])
  }

  /** Every generated candidate is itself a valid user-suppliable code. */
  lemma CandidateIsValidCode(draws: Draws, k: nat)
    ensures ValidCode(Candidate(draws, k))
  {
    var c := Candidate(draws, k);
    AlphabetIsAlnum();
    forall i | 0 <= i < |c| ensures IsAsciiAlnum(c[i]) {
      var j :| 0 <= j < |Alphabet| && Alphabet[j] == c[i];
    }
  }

  /** Candidate k is the one the generation loop accepts: it is free, every
      earlier candidate collided, and it is within the retry bound. */
  ghost predicate FirstFreeAt(taken: set<string>, draws: Draws, k: nat) {
    k <= MaxRetries
    && Candidate(draws, k) !in taken
    && forall j :: 0 <= j < k ==> Candidate(draws, j) in taken
  }

  /** All MaxRetries + 1 candidates collided: generation is exhausted. */
  ghost predicate AllCandidatesTaken(taken: set<string>, draws: Draws) {
    forall j :: 0 <= j <= MaxRetries ==> Candidate(draws, j) in taken
  }

  /** The accepted attempt is unique, and exhaustion excludes acceptance. */
  lemma FirstFreeUnique(taken: set<string>, draws: Draws, k: nat, k': nat)
    requires FirstFreeAt(taken, draws, k)
    ensures FirstFreeAt(taken, draws, k') <==> k' == k
    ensures !AllCandidatesTaken(taken, draws)
  {
    if k' < k {
      assert Candidate(draws, k') in taken;
    } else if k < k' {
      assert FirstFreeAt(taken, draws, k') ==> Candidate(draws, k) in taken;
    }
    assert Candidate(draws, k) !in taken;
  }

  // ---------------------------------------------------------------------------
  // Redirect and short URL

  /** Path segments the redirect route passes on to later routes. */
  predicate IsReserved(code: string) {
    code == "api" || code == "healthz"
  }

  /** "api" can never be stored, but "healthz" passes the code format: a link
      created with that code exists yet can never be followed. */
  lemma ReservedCodesAndFormat()
    ensures IsReserved("api") && !ValidCode("api")
    ensures IsReserved("healthz") && ValidCode("healthz")
  {
    assert AllAsciiAlnum("healthz");
  }

  /** `${BASE_URL}/${code}`. */
  function ShortUrl(baseUrl: string, code: string): string
  {
    baseUrl + "/" + code
  }

  /** The code in the path of a URL under the base URL: what follows
      "<base>/", or none for a URL elsewhere. */
  function CodeOfShortUrl(baseUrl: string, u: string): Option<string> {
    if |u| > |baseUrl| && u[..|baseUrl|] == baseUrl && u[|baseUrl|] == '/' then
      Some(u[|baseUrl| + 1..])
    else
      None
  }

  /** A short URL carries its own code back to the redirect route. */
  lemma ShortUrlRoundTrip(baseUrl: string, code: string)
    ensures CodeOfShortUrl(baseUrl, ShortUrl(baseUrl, code)) == Some(code)
  {
  }

  /** Distinct codes have distinct short URLs under one base URL. */
  lemma ShortUrlInjective(baseUrl: string, c1: string, c2: string)
    requires ShortUrl(baseUrl, c1) == ShortUrl(baseUrl, c2)
    ensures c1 == c2
  {
    var s := ShortUrl(baseUrl, c1);
    assert c1 == s[|baseUrl| + 1..];
  }

  // ---------------------------------------------------------------------------
  // Listing order: ORDER BY createdAt DESC

  /** `rows` lists exactly the records of `t`, each once, newest first. Rows
      with equal creation times may come in any order, as in SQL. */
  predicate IsNewestFirstListing(t: Table, rows: seq<Row>) {
    && |rows| == |t|
    && (forall i :: 0 <= i < |rows| ==> rows[i].code in t && rows[i] == RowOf(rows[i].code, t[rows[i].code]))
    && (forall i, j :: 0 <= i < j < |rows| ==> rows[i].code != rows[j].code)
    && (forall i, j :: 0 <= i < j < |rows| ==> rows[i].createdAt >= rows[j].createdAt)
  }

  /** Every code of `t` appears in such a listing. */
  lemma ListingCoversTable(t: Table, rows: seq<Row>, c: string)
    requires IsNewestFirstListing(t, rows)
    requires c in t
    ensures exists i :: 0 <= i < |rows| && rows[i] == RowOf(c, t[c])
  {
    var codes := set i | 0 <= i < |rows| :: rows[i].code;
    assert codes <= t.Keys;
    CardinalityOfListedCodes(rows, |rows|);
    assert codes + t.Keys == t.Keys && codes * t.Keys == codes;
    assert |t.Keys - codes| == 0;
    assert c in codes;
  }

  lemma {:induction false} CardinalityOfListedCodes(rows: seq<Row>, n: nat)
    requires n <= |rows|
    requires forall i, j :: 0 <= i < j < |rows| ==> rows[i].code != rows[j].code
    ensures |set i | 0 <= i < n :: rows[i].code| == n
  {
    if n > 0 {
      CardinalityOfListedCodes(rows, n - 1);
      var prev := set i | 0 <= i < n - 1 :: rows[i].code;
      assert (set i | 0 <= i < n :: rows[i].code) == prev + {rows[n - 1].code};
      assert rows[n - 1].code !in prev;
    }
  }

  /** A finite table has a newest record. */
  lemma {:induction false} NewestExists(t: Table) returns (k: string)
    requires t != map[]
    ensures k in t && forall c :: c in t ==> t[c].createdAt <= t[k].createdAt
    decreases |t|
  {
    var c :| c in t;
    var rest := t - {c};
    assert rest.Keys == t.Keys - {c};
    assert forall c' :: c' in t ==> c' == c || c' in rest;
    if |rest| == 0 {
      k := c;
    } else {
      assert |rest| < |t|;
      var k' := NewestExists(rest);
      k := if t[c].createdAt <= t[k'].createdAt then k' else c;
    }
  }

  /** Every table has a newest-first listing: what ORDER BY returns exists. */
  lemma {:induction false} ListingExists(t: Table) returns (rows: seq<Row>)
    ensures IsNewestFirstListing(t, rows)
    decreases |t|
  {
    if t == map[] {
      rows := [];
    } else {
      var k := NewestExists(t);
      var rest := t - {k};
      assert rest.Keys == t.Keys - {k};
      assert |rest| == |t| - 1;
      var tail := ListingExists(rest);
      rows := [RowOf(k, t[k])] + tail;
      forall i | 1 <= i < |rows| ensures rows[i].code in rest && rows[i].code != k {
        assert rows[i] == tail[i - 1];
      }
    }
  }
}
