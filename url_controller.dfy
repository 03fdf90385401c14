/** The five request handlers of the URL-shortening controller over the two
    tables `urls` and `visits`. Encode and redirect write to the tables and
    are methods of `UrlStore`; decode, statistics and list only read, and
    are functions of the rows of `urls`.

    The environment of a handler comes in as parameters: the code `nanoid(6)`
    generated, the text `process.env.BASE_URL` interpolates to, the
    creation time the database stamps on a new row, the request headers,
    and how each `db.query` call settles. */
module UrlController {
  import opened Js
  import opened Records
  import opened Tables

  /** `${BASE_URL}/${code}`: the base URL, a '/', then the code. */
  function ShortUrl(base: string, code: string): (s: string)
    ensures |s| == |base| + 1 + |code|
    ensures s[..|base|] == base && s[|base|] == '/' && s[|base| + 1..] == code
  {
    base + "/" + code
  }

  /** `shortUrl.split('/').pop()`: the longest tail of `shortUrl` holding no
      '/'; it is all of `shortUrl` or follows its last '/'. */
  function CodeOf(shortUrl: string): (code: string)
    ensures '/' !in code
    ensures |code| <= |shortUrl| && code == shortUrl[|shortUrl| - |code|..]
    ensures |code| == |shortUrl| || shortUrl[|shortUrl| - |code| - 1] == '/'
  {
    LastPieceIsTail(shortUrl, '/');
    Last(Split(shortUrl, '/'))
  }

  /** The code a short URL was composed from is what decode extracts from it,
      whatever the base URL, as long as the code holds no '/'. */
  lemma CodeOfShortUrl(base: string, code: string)
    requires '/' !in code
    ensures CodeOf(ShortUrl(base, code)) == code
  {
    var s := ShortUrl(base, code);
    var r := CodeOf(s);
    assert s[|base|] == '/';
    assert s[|s| - |code|..] == code;
  }

  /** POST /decode. */
  function Decode(urls: seq<Link>, shortUrl: Option<string>, lookup: DbReply): (r: Response)
    ensures !Truthy(shortUrl) ==> r == Response(400, Failure("shortUrl is required"))
    ensures Truthy(shortUrl) && lookup.Rejected? ==> r == Response(500, FailureDetail("Database error", lookup.message))
    ensures Truthy(shortUrl) && lookup.Resolved? ==>
              (r == Response(404, Failure("Short URL not found")) <==>
               forall l :: l in urls ==> l.code != CodeOf(shortUrl.value))
    ensures Truthy(shortUrl) && lookup.Resolved? && (exists l :: l in urls && l.code == CodeOf(shortUrl.value)) ==>
              r.status == 200
    ensures r.status == 200 ==>
              Truthy(shortUrl) && lookup.Resolved? &&
              exists l :: l in urls && l.code == CodeOf(shortUrl.value) && r.body == Original(l.longUrl)
    ensures r.status in {200, 400, 404, 500}
  {
    if !Truthy(shortUrl) then Response(400, Failure("shortUrl is required"))
    else
      var code := CodeOf(shortUrl.value);
      match lookup
      case Rejected(message) => Response(500, FailureDetail("Database error", message))
      case Resolved =>
        match Select(urls, CodeColumn, code)
        case None => Response(404, Failure("Short URL not found"))
        case Some(l) => Response(200, Original(l.longUrl))
  }

  /** When codes are unique, the short URL of a stored row whose code holds
      no '/' decodes to that row's own long URL. */
  lemma StoredCodeDecodes(urls: seq<Link>, l: Link, base: string)
    requires Unique(urls, CodeColumn)
    requires l in urls && '/' !in l.code
    ensures Decode(urls, Some(ShortUrl(base, l.code)), Resolved) == Response(200, Original(l.longUrl))
  {
    CodeOfShortUrl(base, l.code);
    SelectUnique(urls, CodeColumn, l);
  }

  /** A short URL whose last segment is not a stored code is not found, as
      in the service's own example `https://example.com/abcdef`. */
  lemma UnknownShortUrlNotFound(urls: seq<Link>)
    requires forall l :: l in urls ==> l.code != "abcdef"
    ensures Decode(urls, Some("https://example.com/abcdef"), Resolved) == Response(404, Failure("Short URL not found"))
  {
    assert ShortUrl("https://example.com", "abcdef") == "https://example.com/abcdef";
    CodeOfShortUrl("https://example.com", "abcdef");
  }

  /** A generated code that is already taken is inserted anyway, and the new
      short URL then decodes to the long URL of the row that held the code
      first, not to the URL just encoded. */
  lemma CollisionShadowsNewRow(urls: seq<Link>, l: Link, longUrl: string, createdAt: int, base: string)
    requires Unique(urls, CodeColumn)
    requires l in urls && '/' !in l.code
    requires l.longUrl != longUrl
    ensures Decode(urls + [Link(l.code, longUrl, createdAt, 0)], Some(ShortUrl(base, l.code)), Resolved)
            == Response(200, Original(l.longUrl))
    ensures Decode(urls + [Link(l.code, longUrl, createdAt, 0)], Some(ShortUrl(base, l.code)), Resolved)
            != Response(200, Original(longUrl))
  {
    CodeOfShortUrl(base, l.code);
    SelectUnique(urls, CodeColumn, l);
    SelectAfterAppend(urls, Link(l.code, longUrl, createdAt, 0), CodeColumn, l.code);
  }

  /** GET /statistic/:code: the stored row as it is. */
  function Statistics(urls: seq<Link>, code: string, lookup: DbReply): (r: Response)
    ensures lookup.Rejected? ==> r == Response(500, FailureDetail("Error fetching stats", lookup.message))
    ensures lookup.Resolved? ==>
              (r == Response(404, Failure("Not found")) <==> forall l :: l in urls ==> l.code != code)
    ensures lookup.Resolved? && (exists l :: l in urls && l.code == code) ==> r.status == 200 && r.body.Row?
    ensures r.status == 200 ==> lookup.Resolved? && r.body.Row? && r.body.link in urls && r.body.link.code == code
    ensures r.status in {200, 404, 500}
  {
    match lookup
    case Rejected(message) => Response(500, FailureDetail("Error fetching stats", message))
    case Resolved =>
      match Select(urls, CodeColumn, code)
      case None => Response(404, Failure("Not found"))
      case Some(l) => Response(200, Row(l))
  }

  /** When codes are unique, the statistics of a stored code are exactly
      its row. */
  lemma StatisticsOfStoredCode(urls: seq<Link>, l: Link)
    requires Unique(urls, CodeColumn)
    requires l in urls
    ensures Statistics(urls, l.code, Resolved) == Response(200, Row(l))
  {
    SelectUnique(urls, CodeColumn, l);
  }

  /** One row of the list handler's answer: the row's fields under their
      JSON names, with a short URL that decode maps back to the row's code. */
  function Format(l: Link, base: string): (e: Entry)
    ensures e.shortUrl == ShortUrl(base, l.code)
    ensures e.longUrl == l.longUrl && e.createdAt == l.createdAt && e.visits == l.visits
    ensures '/' !in l.code ==> CodeOf(e.shortUrl) == l.code
  {
    var e := Entry(ShortUrl(base, l.code), l.longUrl, l.createdAt, l.visits);
    assert '/' !in l.code ==> CodeOf(e.shortUrl) == l.code by {
      if '/' !in l.code {
        CodeOfShortUrl(base, l.code);
      }
    }
    e
  }

  /** `rows.map(row => ...)` of the list handler. */
  function FormatAll(rows: seq<Link>, base: string): (entries: seq<Entry>)
    ensures |entries| == |rows|
    ensures forall i :: 0 <= i < |rows| ==> entries[i] == Format(rows[i], base)
  {
    if rows == [] then [] else [Format(rows[0], base)] + FormatAll(rows[1..], base)
  }

  /** Formatting rows that are a rearrangement of each other gives entries
      that are a rearrangement of each other. */
  lemma {:induction false} FormatPermutation(a: seq<Link>, b: seq<Link>, base: string)
    requires multiset(a) == multiset(b)
    ensures multiset(FormatAll(a, base)) == multiset(FormatAll(b, base))
    decreases |a|
  {
    if a == [] {
      assert |b| == |multiset(b)| == 0;
    } else {
      var x := a[0];
      assert x in multiset(b);
      var i :| 0 <= i < |b| && b[i] == x;
      RemoveAt(a, 0);
      RemoveAt(b, i);
      assert a[..0] + a[1..] == a[1..];
      var b' := b[..i] + b[i + 1..];
      assert multiset(a[1..]) == multiset(a) - multiset{x};
      assert multiset(b') == multiset(b) - multiset{x};
      FormatPermutation(a[1..], b', base);
      FormatRemoveAt(a, 0, base);
      FormatRemoveAt(b, i, base);
    }
  }

  /** Dropping the element at `i` drops one occurrence of it. */
  lemma RemoveAt<T>(s: seq<T>, i: nat)
    requires i < |s|
    ensures multiset(s) == multiset(s[..i] + s[i + 1..]) + multiset{s[i]}
  {
    assert s == s[..i] + [s[i]] + s[i + 1..];
  }

  /** Formatting commutes with dropping the element at `i`. */
  lemma FormatRemoveAt(s: seq<Link>, i: nat, base: string)
    requires i < |s|
    ensures multiset(FormatAll(s, base)) ==
            multiset(FormatAll(s[..i] + s[i + 1..], base)) + multiset{Format(s[i], base)}
  {
    var f := FormatAll(s, base);
    RemoveAt(f, i);
    assert FormatAll(s[..i] + s[i + 1..], base) == f[..i] + f[i + 1..];
  }

  /** GET /list: one entry per row of `urls`, newest first. */
  function List(urls: seq<Link>, base: string, query: DbReply): (r: Response)
    ensures query.Rejected? ==> r == Response(500, FailureDetail("Error listing URLs", query.message))
    ensures query.Resolved? ==>
              r.status == 200 && r.body.Listing? &&
              multiset(r.body.entries) == multiset(FormatAll(urls, base)) &&
              forall i, j :: 0 <= i < j < |r.body.entries| ==>
                r.body.entries[i].createdAt >= r.body.entries[j].createdAt
  {
    match query
    case Rejected(message) => Response(500, FailureDetail("Error listing URLs", message))
    case Resolved =>
      var sorted := SortNewestFirst(urls);
      FormatPermutation(sorted, urls, base);
      Response(200, Listing(FormatAll(sorted, base)))
  }

  /** Every listed entry carries the short URL of a stored row, and every
      stored row is listed. */
  lemma ListShowsEveryRow(urls: seq<Link>, base: string)
    ensures var entries := List(urls, base, Resolved).body.entries;
      (forall l :: l in urls ==> Format(l, base) in entries) &&
      (forall e :: e in entries ==> exists l :: l in urls && e == Format(l, base))
  {
    var entries := List(urls, base, Resolved).body.entries;
    var formatted := FormatAll(urls, base);
    assert multiset(entries) == multiset(formatted);
    forall l | l in urls ensures Format(l, base) in entries {
      var i :| 0 <= i < |urls| && urls[i] == l;
      assert formatted[i] in multiset(formatted);
    }
    forall e | e in entries ensures exists l :: l in urls && e == Format(l, base) {
      assert e in multiset(formatted);
      var i :| 0 <= i < |formatted| && formatted[i] == e;
      assert urls[i] in urls;
    }
  }

  /** The visit row the redirect handler writes: the referrer is the
      `Referrer` header, else the `Referer` header, and the location is left
      empty. */
  function VisitOf(code: string, req: Request): (v: Visit)
    ensures v.code == code && v.ipAddress == req.ip && v.userAgent == req.userAgent && v.location == None
    ensures Truthy(req.referrerHeader) ==> v.referrer == req.referrerHeader
    ensures !Truthy(req.referrerHeader) ==> v.referrer == req.refererHeader
  {
    Visit(code, req.ip, req.userAgent, Or(req.referrerHeader, req.refererHeader), None)
  }

  /** The two tables, held in the order their rows were inserted. */
  class UrlStore {
    var urls: seq<Link>
    var visits: seq<Visit>

    /** Empty tables, as a fresh database holds them. */
    constructor ()
      ensures urls == [] && visits == []
      ensures WellFormed(urls) && VisitsResolve(urls, visits)
    {
      urls := [];
      visits := [];
    }

    /** POST /encode, with `code` standing for what `nanoid(6)` returned. */
    method Encode(longUrl: Option<string>, code: string, base: string, createdAt: int,
                  lookup: DbReply, insert: DbReply) returns (r: Response)
      modifies this
      ensures visits == old(visits)
      ensures !Truthy(longUrl) ==> r == Response(400, Failure("longUrl is required")) && urls == old(urls)
      ensures Truthy(longUrl) && lookup.Rejected? ==>
                r == Response(500, FailureDetail("Database error", lookup.message)) && urls == old(urls)
      ensures Truthy(longUrl) && lookup.Resolved? ==>
                match Select(old(urls), LongUrlColumn, longUrl.value)
                case Some(l) =>
                  r == Response(200, Shortened(ShortUrl(base, l.code), false, "URL already shortened")) &&
                  urls == old(urls)
                case None =>
                  if insert.Rejected? then
                    r == Response(500, FailureDetail("Database error", insert.message)) && urls == old(urls)
                  else
                    r == Response(201, Shortened(ShortUrl(base, code), true, "New short URL created")) &&
                    urls == old(urls) + [Link(code, longUrl.value, createdAt, 0)]
      // the short URL handed out is the one a later encode of the same long URL finds
      ensures r.body.Shortened? ==>
                Truthy(longUrl) && Select(urls, LongUrlColumn, longUrl.value).Some? &&
                r.body.shortUrl == ShortUrl(base, Select(urls, LongUrlColumn, longUrl.value).value.code) &&
                r.body.isNew == (urls != old(urls))
      // the tables stay well-formed only when the generated code is fresh
      ensures WellFormed(old(urls)) && '/' !in code && Select(old(urls), CodeColumn, code).None? ==>
                WellFormed(urls)
      ensures VisitsResolve(old(urls), visits) ==> VisitsResolve(urls, visits)
      // round trip: decoding the short URL handed out gives back the long URL
      ensures Truthy(longUrl) && r.body.Shortened? && WellFormed(urls) ==>
                Decode(urls, Some(r.body.shortUrl), Resolved) == Response(200, Original(longUrl.value))
    {
      if !Truthy(longUrl) {
        return Response(400, Failure("longUrl is required"));
      }
      var url := longUrl.value;
      if lookup.Rejected? {
        return Response(500, FailureDetail("Database error", lookup.message));
      }
      var existing := Select(urls, LongUrlColumn, url);
      if existing.Some? {
        r := Response(200, Shortened(ShortUrl(base, existing.value.code), false, "URL already shortened"));
        if WellFormed(urls) {
          SelectUnique(urls, LongUrlColumn, existing.value);
          StoredCodeDecodes(urls, existing.value, base);
        }
        return;
      }
      if insert.Rejected? {
        return Response(500, FailureDetail("Database error", insert.message));
      }
      var row := Link(code, url, createdAt, 0);
      ghost var before := urls;
      urls := urls + [row];
      SelectAfterAppend(before, row, LongUrlColumn, url);
      if VisitsResolve(before, visits) {
        AppendKeepsVisitsResolved(before, row, visits);
      }
      if WellFormed(before) && '/' !in code && Select(before, CodeColumn, code).None? {
        AppendKeepsUnique(before, row, CodeColumn);
        AppendKeepsUnique(before, row, LongUrlColumn);
      }
      if WellFormed(urls) {
        StoredCodeDecodes(urls, row, base);
      }
      r := Response(201, Shortened(ShortUrl(base, code), true, "New short URL created"));
    }

    /** GET /:code: record the visit, then redirect. */
    method Redirect(code: string, req: Request, lookup: DbReply, insert: DbReply) returns (r: Response)
      modifies this
      ensures urls == old(urls)
      ensures lookup.Rejected? ==> r == Response(500, Text("Error retrieving URL")) && visits == old(visits)
      ensures lookup.Resolved? ==>
                match Select(urls, CodeColumn, code)
                case None => r == Response(404, Text("URL not found")) && visits == old(visits)
                case Some(l) =>
                  if insert.Rejected? then r == Response(500, Text("Error retrieving URL")) && visits == old(visits)
                  else r == Response(302, Location(l.longUrl)) && visits == old(visits) + [VisitOf(code, req)]
      ensures r.status == 404 <==> lookup.Resolved? && forall l :: l in urls ==> l.code != code
      ensures r.status == 302 ==> exists l :: l in urls && l.code == code && r.body == Location(l.longUrl)
      // exactly one visit row per redirect issued, and none otherwise
      ensures forall c :: VisitCount(visits, c) == VisitCount(old(visits), c) + (if r.status == 302 && c == code then 1 else 0)
      ensures VisitsResolve(urls, old(visits)) ==> VisitsResolve(urls, visits)
    {
      if lookup.Rejected? {
        return Response(500, Text("Error retrieving URL"));
      }
      var found := Select(urls, CodeColumn, code);
      if found.None? {
        assert forall l :: l in urls ==> l.code != code;
        return Response(404, Text("URL not found"));
      }
      var longUrl := found.value.longUrl;
      assert found.value in urls && found.value.code == code;
      if insert.Rejected? {
        return Response(500, Text("Error retrieving URL"));
      }
      var v := VisitOf(code, req);
      ghost var before := visits;
      visits := visits + [v];
      forall c {
        VisitCountAppend(before, v, c);
      }
      if VisitsResolve(urls, before) {
        AppendVisitKeepsVisitsResolved(urls, before, v);
      }
      r := Response(302, Location(longUrl));
    }
  }

  /** Encoding the same long URL twice hands out the same short URL, and the
      second answer says it is not new. */
  method EncodeTwice(store: UrlStore, longUrl: string, code1: string, code2: string, base: string,
                     createdAt1: int, createdAt2: int) returns (first: Response, second: Response)
    requires longUrl != ""
    modifies store
    ensures first.body.Shortened?
    ensures second == Response(200, Shortened(first.body.shortUrl, false, "URL already shortened"))
  {
    first := store.Encode(Some(longUrl), code1, base, createdAt1, Resolved, Resolved);
    second := store.Encode(Some(longUrl), code2, base, createdAt2, Resolved, Resolved);
  }
}
