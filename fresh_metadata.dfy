/**
 * The URL and batching logic of src/fresh_metadata.py: the IPFS gateway
 * rewrite, the base-URL test, the request list of one refresh round, the
 * module-level lists of failed URLs and the windows of at most 100 ids.
 * HTTP responses are parameters; the rounds run their queries in list
 * order.
 */
module FreshMetadata {
  import opened Wrappers
  import opened Text

  const IpfsPrefix: string := "ipfs://"
  const Gateway: string := "https://opensea.mypinata.cloud/ipfs/"

  /** `ipfs_to_opensea(url)`: an `ipfs://` URL is served from the gateway, any other URL is unchanged. */
  function IpfsToOpensea(url: string): string {
    if StartsWith(url, IpfsPrefix) then Gateway + url[|IpfsPrefix|..] else url
  }

  /** The rewrite keeps everything after the scheme and is the identity on every other URL. */
  lemma IpfsToOpenseaSpec(url: string)
    ensures StartsWith(url, IpfsPrefix) ==> IpfsToOpensea(url) == Gateway + url[7..]
    ensures StartsWith(url, IpfsPrefix) ==> EndsWith(IpfsToOpensea(url), url[7..])
    ensures !StartsWith(url, IpfsPrefix) ==> IpfsToOpensea(url) == url
    ensures !StartsWith(IpfsToOpensea(url), IpfsPrefix) || !StartsWith(url, IpfsPrefix)
  {
    if StartsWith(url, IpfsPrefix) {
      var r := Gateway + url[7..];
      assert r[|r| - |url[7..]|..] == url[7..];
      assert r[..7] != IpfsPrefix by {
        assert r[4] == 's' && IpfsPrefix[4] == ':';
      }
    }
  }

  /** Rewriting twice is rewriting once: a gateway URL no longer starts with `ipfs://`. */
  lemma IpfsToOpenseaIdempotent(url: string)
    ensures IpfsToOpensea(IpfsToOpensea(url)) == IpfsToOpensea(url)
  {
    IpfsToOpenseaSpec(url);
  }

  // ---------------------------------------------------------------------------
  // is_base_url

  /** The number of ASCII digits at the end of `s`. */
  function TrailingDigits(s: string): (d: nat)
    ensures d <= |s| && forall i :: |s| - d <= i < |s| ==> IsDigit(s[i])
    ensures d < |s| ==> !IsDigit(s[|s| - d - 1])
  {
    if |s| == 0 || !IsDigit(s[|s| - 1]) then 0
    else TrailingDigits(s[..|s| - 1]) + 1
  }

  /** `s` ends with `/` followed by at least one digit. */
  predicate EndsWithSlashDigits(s: string) {
    var d := TrailingDigits(s);
    1 <= d < |s| && s[|s| - d - 1] == '/'
  }

  /**
   * `re.search(r"\/\d+$", url)`: the digits run to the end of the string,
   * or to a newline that ends it, as `$` allows.
   */
  function IsBaseUrl(url: string): bool {
    EndsWithSlashDigits(url)
    || (|url| >= 1 && url[|url| - 1] == '\n' && EndsWithSlashDigits(url[..|url| - 1]))
  }

  /** The pattern matches `url[p..q]`: a `/`, one or more digits, then the end or a final newline. */
  predicate MatchAt(url: string, p: nat, q: nat) {
    p + 1 < q <= |url| && url[p] == '/' && AllDigits(url[p + 1..q])
    && (q == |url| || (q == |url| - 1 && url[q] == '\n'))
  }

  lemma {:induction false} TrailingDigitsExact(s: string, k: nat)
    requires k < |s| && AllDigits(s[|s| - k..]) && !IsDigit(s[|s| - k - 1])
    ensures TrailingDigits(s) == k
    decreases k
  {
    if k > 0 {
      var s' := s[..|s| - 1];
      assert s'[|s'| - (k - 1)..] == s[|s| - k..|s| - 1];
      assert s'[|s'| - (k - 1) - 1] == s[|s| - k - 1];
      assert s[|s| - 1] == s[|s| - k..][k - 1];
      TrailingDigitsExact(s', k - 1);
    }
  }

  lemma SlashDigitsAt(t: string, p: nat)
    requires p + 1 < |t| && t[p] == '/' && AllDigits(t[p + 1..])
    ensures EndsWithSlashDigits(t)
  {
    TrailingDigitsExact(t, |t| - p - 1);
  }

  /** `is_base_url` holds exactly when the pattern matches somewhere in the URL. */
  lemma IsBaseUrlIff(url: string)
    ensures IsBaseUrl(url) <==> exists p: nat, q: nat :: MatchAt(url, p, q)
  {
    if EndsWithSlashDigits(url) {
      var d := TrailingDigits(url);
      assert MatchAt(url, |url| - d - 1, |url|);
    } else if |url| >= 1 && url[|url| - 1] == '\n' && EndsWithSlashDigits(url[..|url| - 1]) {
      var t := url[..|url| - 1];
      var d := TrailingDigits(t);
      assert url[|t| - d..|t|] == t[|t| - d..];
      assert MatchAt(url, |t| - d - 1, |t|);
    }
    if exists p: nat, q: nat :: MatchAt(url, p, q) {
      var p: nat, q: nat :| MatchAt(url, p, q);
      var t := url[..q];
      assert t[p + 1..] == url[p + 1..q];
      SlashDigitsAt(t, p);
      if q == |url| {
        assert t == url;
      }
    }
  }

  lemma SlashThenDigits(t: string, digits: string)
    requires |t| >= 1 && t[|t| - 1] == '/' && |digits| >= 1 && AllDigits(digits)
    ensures EndsWithSlashDigits(t + digits)
  {
    var r := t + digits;
    assert r[|t| + 1..] == digits[1..];
    SlashDigitsAt(r, |t| - 1);
  }

  /** A directory URL ending in `/` plus a non-negative id is a base URL once rewritten. */
  lemma BaseUrlWithId(baseUrl: string, id: nat)
    requires EndsWith(baseUrl, "/")
    ensures IsBaseUrl(IpfsToOpensea(baseUrl + IntToString(id)))
  {
    var digits := IntToString(id);
    NatToStringRoundTrip(id);
    assert digits == NatToString(id);
    var url := baseUrl + digits;
    if StartsWith(url, IpfsPrefix) {
      assert url[6] == '/';
      if |baseUrl| == 7 {
        assert url[7..] == digits;
        SlashThenDigits(Gateway, digits);
      } else {
        var t := Gateway + baseUrl[7..];
        assert url[7..] == baseUrl[7..] + digits;
        assert Gateway + url[7..] == t + digits;
        SlashThenDigits(t, digits);
      }
    } else {
      SlashThenDigits(baseUrl, digits);
    }
  }

  // ---------------------------------------------------------------------------
  // Request URLs of one round

  /** `urls` is the request list of src/fresh_metadata.py:219-225 for the id range or for the listed ids. */
  predicate IsRequestList(urls: seq<string>, baseUrl: string, startId: int, endId: int, idToRefresh: seq<int>) {
    if |idToRefresh| == 0 then
      |urls| == (if startId <= endId then endId - startId + 1 else 0)
      && forall k :: 0 <= k < |urls| ==> urls[k] == baseUrl + IntToString(startId + k)
    else
      |urls| == |idToRefresh| && forall k :: 0 <= k < |urls| ==> urls[k] == baseUrl + IntToString(idToRefresh[k])
  }

  /** `BASEURL + str(id)` for every id of `range(start_id, end_id + 1)`, or of `ID_TO_REFRESH` when it is not empty. */
  method RequestUrls(baseUrl: string, startId: int, endId: int, idToRefresh: seq<int>) returns (urls: seq<string>)
    ensures IsRequestList(urls, baseUrl, startId, endId, idToRefresh)
  {
    if |idToRefresh| == 0 {
      var count := if startId <= endId then endId - startId + 1 else 0;
      var ids := seq(count, k requires 0 <= k < count => startId + k);
      urls := ListedUrls(baseUrl, ids);
    } else {
      urls := ListedUrls(baseUrl, idToRefresh);
    }
  }

  /** The loop of src/fresh_metadata.py:220-225 over a list of ids. */
  method ListedUrls(baseUrl: string, ids: seq<int>) returns (urls: seq<string>)
    ensures |urls| == |ids| && forall k :: 0 <= k < |urls| ==> urls[k] == baseUrl + IntToString(ids[k])
  {
    urls := [];
    for k := 0 to |ids|
      invariant |urls| == k
      invariant forall k' :: 0 <= k' < k ==> urls[k'] == baseUrl + IntToString(ids[k'])
    {
      urls := urls + [baseUrl + IntToString(ids[k])];
    }
  }

  lemma IntToStringInjective(a: int, b: int)
    requires IntToString(a) == IntToString(b)
    ensures a == b
  {
    IntToStringRoundTrip(a);
    IntToStringRoundTrip(b);
  }

  /** A full refresh asks for every id once: its URLs are pairwise distinct. */
  lemma RangeUrlsDistinct(urls: seq<string>, baseUrl: string, startId: int, endId: int)
    requires IsRequestList(urls, baseUrl, startId, endId, [])
    ensures NoDuplicates(urls)
  {
    forall i, j | 0 <= i < j < |urls| ensures urls[i] != urls[j] {
      if urls[i] == urls[j] {
        var si, sj := IntToString(startId + i), IntToString(startId + j);
        assert (baseUrl + si)[|baseUrl|..] == si;
        assert (baseUrl + sj)[|baseUrl|..] == sj;
        IntToStringInjective(startId + i, startId + j);
      }
    }
  }

  /** Every URL of a full refresh from a non-negative start is queried as a base URL. */
  lemma RangeUrlsAreBase(urls: seq<string>, baseUrl: string, startId: nat, endId: int)
    requires EndsWith(baseUrl, "/") && IsRequestList(urls, baseUrl, startId, endId, [])
    ensures forall k :: 0 <= k < |urls| ==> IsBaseUrl(IpfsToOpensea(urls[k]))
  {
    forall k | 0 <= k < |urls| ensures IsBaseUrl(IpfsToOpensea(urls[k])) {
      var id: nat := startId + k;
      assert urls[k] == baseUrl + IntToString(id);
      BaseUrlWithId(baseUrl, id);
    }
  }

  // ---------------------------------------------------------------------------
  // The failed-URL lists

  /** `s.remove(x)`: drops the first occurrence. */
  function RemoveFirst(s: seq<string>, x: string): (r: seq<string>)
    ensures |r| == (if x in s then |s| - 1 else |s|)
  {
    if |s| == 0 then []
    else if s[0] == x then s[1..]
    else [s[0]] + RemoveFirst(s[1..], x)
  }

  /** `if x not in s: s.append(x)`. */
  function AddIfAbsent(s: seq<string>, x: string): (r: seq<string>)
    ensures x in r && forall y :: y in r <==> y in s || y == x
    ensures NoDuplicates(s) ==> NoDuplicates(r)
  {
    if x in s then s else s + [x]
  }

  /** `if x in s: s.remove(x)` on a duplicate-free list leaves it duplicate-free and without `x`. */
  lemma {:induction false} RemoveFirstDistinct(s: seq<string>, x: string)
    requires NoDuplicates(s)
    ensures NoDuplicates(RemoveFirst(s, x))
    ensures forall y :: y in RemoveFirst(s, x) <==> y in s && y != x
  {
    if |s| > 0 {
      var tail := s[1..];
      assert NoDuplicates(tail) by {
        forall i, j | 0 <= i < j < |tail| ensures tail[i] != tail[j] {
          assert tail[i] == s[i + 1] && tail[j] == s[j + 1];
        }
      }
      assert forall y :: y in s <==> y == s[0] || y in tail;
      if s[0] == x {
        assert x !in tail;
      } else {
        RemoveFirstDistinct(tail, x);
        var r := [s[0]] + RemoveFirst(tail, x);
        assert s[0] !in tail;
        forall i, j | 0 <= i < j < |r| ensures r[i] != r[j] {
          if i == 0 {
            assert r[j] in RemoveFirst(tail, x);
          }
        }
      }
    }
  }

  /** An HTTP request: it raised, or it answered with a status code. */
  datatype Response = Raised | Answered(status: int)

  /** What the network does for one query: the first request, the `image` field of its JSON, the image request. */
  datatype Net = Net(first: Response, image: Option<string>, second: Response)

  /** The failed lists, base URLs first. */
  datatype Failed = Failed(base: seq<string>, image: seq<string>)

  /** The image request of src/fresh_metadata.py:79-97 and 105-118: success clears the URL, an exception records it. */
  function ImageStep(image: seq<string>, url: string, res: Response): seq<string> {
    match res
    case Raised => AddIfAbsent(image, url)
    case Answered(status) => if status == 200 && url in image then RemoveFirst(image, url) else image
  }

  /** `ipfs_query(client, url)` (src/fresh_metadata.py:55-118) as its effect on the failed lists. */
  function QueryEffect(f: Failed, url: string, net: Net): Failed {
    var requestUrl := IpfsToOpensea(url);
    if IsBaseUrl(requestUrl) then
      match net.first
      case Raised => f.(base := AddIfAbsent(f.base, requestUrl))
      case Answered(status) =>
        if status != 200 then f
        else
          var base := if requestUrl in f.base then RemoveFirst(f.base, requestUrl) else f.base;
          match net.image
          case None => Failed(AddIfAbsent(base, requestUrl), f.image)
          case Some(imageUrl) => Failed(base, ImageStep(f.image, IpfsToOpensea(imageUrl), net.second))
    else f.(image := ImageStep(f.image, requestUrl, net.first))
  }

  predicate Distinct(f: Failed) {
    NoDuplicates(f.base) && NoDuplicates(f.image)
  }

  lemma ImageStepDistinct(image: seq<string>, url: string, res: Response)
    requires NoDuplicates(image)
    ensures NoDuplicates(ImageStep(image, url, res))
  {
    if res.Answered? && res.status == 200 && url in image {
      RemoveFirstDistinct(image, url);
    }
  }

  /**
   * The image request on a duplicate-free list: an exception records the
   * URL, a 200 clears it, any other status changes nothing.
   */
  lemma ImageStepSpec(image: seq<string>, url: string, res: Response)
    requires NoDuplicates(image)
    ensures var r := ImageStep(image, url, res);
            (res == Raised ==> forall y :: y in r <==> y in image || y == url)
            && (res == Answered(200) ==> forall y :: y in r <==> y in image && y != url)
            && (res.Answered? && res.status != 200 ==> r == image)
  {
    if res == Answered(200) && url in image {
      RemoveFirstDistinct(image, url);
    }
  }

  /**
   * A URL that is not a base URL is queried as an image: the failed base
   * URLs stay as they were and the image list takes the image request's
   * effect.
   */
  lemma QueryEffectNonBase(f: Failed, url: string, net: Net)
    requires Distinct(f) && !IsBaseUrl(IpfsToOpensea(url))
    ensures var r := QueryEffect(f, url, net);
            var requestUrl := IpfsToOpensea(url);
            r.base == f.base
            && (net.first == Raised ==> requestUrl in r.image)
            && (net.first == Answered(200) ==> requestUrl !in r.image)
            && (net.first.Answered? && net.first.status != 200 ==> r == f)
  {
    ImageStepSpec(f.image, IpfsToOpensea(url), net.first);
  }

  /** A query never puts the same URL twice into a failed list. */
  lemma QueryEffectDistinct(f: Failed, url: string, net: Net)
    requires Distinct(f)
    ensures Distinct(QueryEffect(f, url, net))
  {
    var requestUrl := IpfsToOpensea(url);
    if IsBaseUrl(requestUrl) && net.first.Answered? && net.first.status == 200 {
      if requestUrl in f.base {
        RemoveFirstDistinct(f.base, requestUrl);
      }
      if net.image.Some? {
        ImageStepDistinct(f.image, IpfsToOpensea(net.image.value), net.second);
      }
    } else if !IsBaseUrl(requestUrl) {
      ImageStepDistinct(f.image, requestUrl, net.first);
    }
  }

  /**
   * The outcomes of a base-URL query: an exception records it; a reply
   * without an `image` field records it too; a success clears the URL and
   * its image request records or clears the image; any other status leaves
   * both lists as they were.
   */
  lemma QueryEffectBase(f: Failed, url: string, net: Net)
    requires Distinct(f) && IsBaseUrl(IpfsToOpensea(url))
    ensures var r := QueryEffect(f, url, net);
            var requestUrl := IpfsToOpensea(url);
            (net.first == Raised ==> requestUrl in r.base && r.image == f.image)
            && (net.first.Answered? && net.first.status != 200 ==> r == f)
            && (net.first == Answered(200) && net.image.None? ==> requestUrl in r.base && r.image == f.image)
            && (net.first == Answered(200) && net.image.Some? ==> requestUrl !in r.base)
            && (net.first == Answered(200) && net.image.Some? && net.second == Raised ==>
                  IpfsToOpensea(net.image.value) in r.image)
            && (net.first == Answered(200) && net.image.Some? && net.second == Answered(200) ==>
                  IpfsToOpensea(net.image.value) !in r.image)
  {
    var requestUrl := IpfsToOpensea(url);
    if net.first == Answered(200) && net.image.Some? {
      if requestUrl in f.base {
        RemoveFirstDistinct(f.base, requestUrl);
      }
      ImageStepSpec(f.image, IpfsToOpensea(net.image.value), net.second);
    }
  }

  /** The queries of one round from the `k`-th URL on, applied in list order, the `k`-th seeing `net(k)`. */
  function Queries(f: Failed, urls: seq<string>, net: nat -> Net, k: nat): Failed
    decreases |urls| - k
  {
    if k >= |urls| then f else Queries(QueryEffect(f, urls[k], net(k)), urls, net, k + 1)
  }

  lemma {:induction false} QueriesDistinct(f: Failed, urls: seq<string>, net: nat -> Net, k: nat)
    requires Distinct(f)
    ensures Distinct(Queries(f, urls, net, k))
    decreases |urls| - k
  {
    if k < |urls| {
      QueryEffectDistinct(f, urls[k], net(k));
      QueriesDistinct(QueryEffect(f, urls[k], net(k)), urls, net, k + 1);
    }
  }

  /** The module-level state of src/fresh_metadata.py:15-17. */
  class Refresher {
    var failedBaseUrls: seq<string>
    var failedImageUrls: seq<string>
    var first: bool

    ghost predicate Valid()
      reads this
    {
      NoDuplicates(failedBaseUrls) && NoDuplicates(failedImageUrls)
    }

    constructor ()
      ensures Valid() && failedBaseUrls == [] && failedImageUrls == [] && first
    {
      failedBaseUrls, failedImageUrls, first := [], [], true;
    }

    /** `ipfs_query(client, url)` with the network's answers `net`. */
    method Query(url: string, net: Net)
      requires Valid()
      modifies this
      ensures Valid() && first == old(first)
      ensures Failed(failedBaseUrls, failedImageUrls) == QueryEffect(Failed(old(failedBaseUrls), old(failedImageUrls)), url, net)
    {
      QueryEffectDistinct(Failed(failedBaseUrls, failedImageUrls), url, net);
      var requestUrl := IpfsToOpensea(url);
      var isBase := IsBaseUrl(requestUrl);
      if isBase {
        match net.first
        case Raised =>
          if requestUrl !in failedBaseUrls {
            failedBaseUrls := failedBaseUrls + [requestUrl];
          }
        case Answered(status) =>
          if status == 200 {
            if requestUrl in failedBaseUrls {
              failedBaseUrls := RemoveFirst(failedBaseUrls, requestUrl);
            }
            match net.image
            case None =>
              if requestUrl !in failedBaseUrls {
                failedBaseUrls := failedBaseUrls + [requestUrl];
              }
            case Some(imageField) =>
              var imageOpenseaUrl := IpfsToOpensea(imageField);
              QueryImage(imageOpenseaUrl, net.second);
          }
      } else {
        QueryImage(requestUrl, net.first);
      }
    }

    /** The image request on `url` answered `res`. */
    method QueryImage(url: string, res: Response)
      modifies this
      ensures failedBaseUrls == old(failedBaseUrls) && first == old(first)
      ensures failedImageUrls == ImageStep(old(failedImageUrls), url, res)
    {
      match res
      case Raised =>
        if url !in failedImageUrls {
          failedImageUrls := failedImageUrls + [url];
        }
      case Answered(status) =>
        if status == 200 && url in failedImageUrls {
          failedImageUrls := RemoveFirst(failedImageUrls, url);
        }
    }

    /**
     * One call of `main(start_id, end_id)` without its recursive retry
     * (src/fresh_metadata.py:194-230): a round with no failures left after
     * a first pass ends the batch; otherwise the ids' URLs (first pass) or
     * the failed URLs are queried in order.
     */
    method Round(baseUrl: string, startId: int, endId: int, idToRefresh: seq<int>, net: nat -> Net)
      returns (finished: bool, urls: seq<string>)
      requires Valid()
      modifies this
      ensures Valid()
      ensures finished <==> old(failedBaseUrls) == [] && old(failedImageUrls) == [] && !old(first)
      ensures finished ==> first && urls == [] && failedBaseUrls == old(failedBaseUrls) && failedImageUrls == old(failedImageUrls)
      ensures !finished ==>
                !first
                && (old(first) ==> IsRequestList(urls, baseUrl, startId, endId, idToRefresh))
                && (!old(first) ==> urls == old(failedBaseUrls) + old(failedImageUrls))
                && Failed(failedBaseUrls, failedImageUrls) == Queries(Failed(old(failedBaseUrls), old(failedImageUrls)), urls, net, 0)
    {
      if |failedBaseUrls| == 0 && |failedImageUrls| == 0 && !first {
        first := true;
        return true, [];
      }
      if first {
        urls := RequestUrls(baseUrl, startId, endId, idToRefresh);
      } else {
        urls := failedBaseUrls + failedImageUrls;
      }
      first := false;
      QueryAll(urls, net);
      finished := false;
    }

    /** The queries of one round, in list order (the coroutines `ipfs_query_tasks` gathers). */
    method QueryAll(urls: seq<string>, net: nat -> Net)
      requires Valid()
      modifies this
      ensures Valid() && first == old(first)
      ensures Failed(failedBaseUrls, failedImageUrls) == Queries(Failed(old(failedBaseUrls), old(failedImageUrls)), urls, net, 0)
    {
      ghost var f0 := Failed(failedBaseUrls, failedImageUrls);
      for k := 0 to |urls|
        invariant Valid() && first == old(first)
        invariant Queries(f0, urls, net, 0) == Queries(Failed(failedBaseUrls, failedImageUrls), urls, net, k)
      {
        Query(urls[k], net(k));
      }
    }
  }

  // ---------------------------------------------------------------------------
  // The id windows of `__main__`

  /**
   * `for start_id in range(start, amount + 1, 100)` with
   * `end_id = min(amount, start_id + 100 - 1)` (src/fresh_metadata.py:240-245).
   */
  method Windows(start: int, amount: int) returns (ws: seq<(int, int)>)
    ensures |ws| == 0 <==> start > amount
    ensures |ws| > 0 ==> ws[0].0 == start && ws[|ws| - 1].1 == amount
    ensures forall k :: 0 <= k < |ws| ==> ws[k].0 <= ws[k].1 < ws[k].0 + 100
    ensures forall k :: 0 <= k < |ws| - 1 ==> ws[k].1 == ws[k].0 + 99 && ws[k + 1].0 == ws[k].1 + 1
  {
    ws := [];
    var s := start;
    while s < amount + 1
      invariant |ws| == 0 ==> s == start
      invariant |ws| > 0 ==> start <= amount
      invariant |ws| > 0 ==> ws[0].0 == start && s == ws[|ws| - 1].0 + 100 && s <= amount + 100
      invariant |ws| > 0 ==> ws[|ws| - 1].1 == (if amount < s - 1 then amount else s - 1)
      invariant forall k :: 0 <= k < |ws| ==> ws[k].0 <= ws[k].1 < ws[k].0 + 100
      invariant forall k :: 0 <= k < |ws| - 1 ==> ws[k].1 == ws[k].0 + 99 && ws[k + 1].0 == ws[k].1 + 1
      decreases amount + 1 - s
    {
      var endId := if amount < s + 100 - 1 then amount else s + 100 - 1;
      ws := ws + [(s, endId)];
      s := s + 100;
    }
  }

  /** Contiguous windows from `start` to `amount` put every id of `[start, amount]` in exactly one window. */
  lemma {:induction false} WindowsCover(ws: seq<(int, int)>, start: int, amount: int, id: int)
    requires |ws| > 0 && ws[0].0 == start && ws[|ws| - 1].1 == amount
    requires forall k :: 0 <= k < |ws| ==> ws[k].0 <= ws[k].1
    requires forall k :: 0 <= k < |ws| - 1 ==> ws[k + 1].0 == ws[k].1 + 1
    requires start <= id <= amount
    ensures exists k :: 0 <= k < |ws| && ws[k].0 <= id <= ws[k].1
    ensures forall k, k' :: 0 <= k < |ws| && 0 <= k' < |ws| && ws[k].0 <= id <= ws[k].1 && ws[k'].0 <= id <= ws[k'].1 ==> k == k'
    decreases |ws|
  {
    WindowsIncreasing(ws);
    if id > ws[0].1 {
      var rest := ws[1..];
      assert |ws| > 1;
      WindowsCover(rest, ws[1].0, amount, id);
      var k :| 0 <= k < |rest| && rest[k].0 <= id <= rest[k].1;
      assert ws[k + 1] == rest[k];
    } else {
      assert ws[0].0 <= id <= ws[0].1;
    }
  }

  /** Later windows start after earlier ones end. */
  lemma {:induction false} WindowsIncreasing(ws: seq<(int, int)>)
    requires forall k :: 0 <= k < |ws| ==> ws[k].0 <= ws[k].1
    requires forall k :: 0 <= k < |ws| - 1 ==> ws[k + 1].0 == ws[k].1 + 1
    ensures forall k, k' :: 0 <= k < k' < |ws| ==> ws[k].1 < ws[k'].0
    decreases |ws|
  {
    if |ws| > 1 {
      var rest := ws[1..];
      WindowsIncreasing(rest);
      forall k, k' | 0 <= k < k' < |ws| ensures ws[k].1 < ws[k'].0 {
        if k > 0 {
          assert ws[k] == rest[k - 1] && ws[k'] == rest[k' - 1];
        } else if k' > 1 {
          assert ws[1] == rest[0] && ws[k'] == rest[k' - 1];
        }
      }
    }
  }
}
