/** The share link: `createShareUrl` writes `#s=<base64url>` and `tryLoadFromHash` finds the
    `s=` parameter again and decodes it, all steps or nothing. JSON text plus gzip is a pair
    of functions given as parameters. */
module ShareLink {
  import opened Wrappers
  import opened Assignment
  import opened Share
  import opened Base64Url

  /** Where `/[#&?]s=([A-Za-z0-9\-_]+)/` can match: a separator, `s=`, one URL-safe char. */
  predicate MatchesAt(h: string, i: int) {
    0 <= i && i + 3 < |h| && (h[i] == '#' || h[i] == '&' || h[i] == '?')
    && h[i + 1] == 's' && h[i + 2] == '=' && IsUrlChar(h[i + 3])
  }

  /** The end of the run of URL-safe chars starting at `j` (the greedy `+`). */
  function RunEnd(h: string, j: nat): (k: nat)
    requires j <= |h|
    ensures j <= k <= |h|
    ensures forall p :: j <= p < k ==> IsUrlChar(h[p])
    ensures k == |h| || !IsUrlChar(h[k])
    decreases |h| - j
  {
    if j < |h| && IsUrlChar(h[j]) then RunEnd(h, j + 1) else j
  }

  /** The regex search from position `i` on. */
  function FindShare(h: string, i: nat): Option<string>
    decreases |h| - i
  {
    if i + 3 >= |h| then None
    else if MatchesAt(h, i) then Some(h[i + 3 .. RunEnd(h, i + 3)])
    else FindShare(h, i + 1)
  }

  /** `hash.match(/[#&?]s=([A-Za-z0-9\-_]+)/)?.[1]`. */
  function ShareParam(hash: string): Option<string> {
    FindShare(hash, 0)
  }

  /** The search from `i` finds the leftmost match at or after `i`, and captures the longest
      run of URL-safe chars there. */
  lemma {:induction false} FindShareLeftmost(h: string, i: nat)
    ensures FindShare(h, i).None? <==> forall p :: i <= p ==> !MatchesAt(h, p)
    ensures FindShare(h, i).Some? ==>
              exists p :: i <= p && MatchesAt(h, p) && (forall q :: i <= q < p ==> !MatchesAt(h, q))
                && FindShare(h, i).value == h[p + 3 .. RunEnd(h, p + 3)]
    decreases |h| - i
  {
    if i + 3 >= |h| {
    } else if MatchesAt(h, i) {
    } else {
      FindShareLeftmost(h, i + 1);
      if FindShare(h, i + 1).Some? {
        var p :| i + 1 <= p && MatchesAt(h, p) && (forall q :: i + 1 <= q < p ==> !MatchesAt(h, q))
                 && FindShare(h, i + 1).value == h[p + 3 .. RunEnd(h, p + 3)];
        assert forall q :: i <= q < p ==> !MatchesAt(h, q);
      }
    }
  }

  /** The parameter is found exactly when the pattern matches somewhere; it is then the
      non-empty, maximal run of URL-safe chars after the first `#s=`, `&s=` or `?s=` that
      is followed by one. */
  lemma ShareParamSpec(hash: string)
    ensures ShareParam(hash).None? <==> forall p :: !MatchesAt(hash, p)
    ensures ShareParam(hash).Some? ==>
              exists p :: MatchesAt(hash, p) && (forall q :: 0 <= q < p ==> !MatchesAt(hash, q))
                && ShareParam(hash).value == hash[p + 3 .. RunEnd(hash, p + 3)]
  {
    FindShareLeftmost(hash, 0);
  }

  /** The URL fragment `createShareUrl` sets: `#s=` and the encoded payload; `encode`
      stands for `JSON.stringify` followed by `Gzip.compress`. */
  function ShareFragment(mode: Mode, items: State, powers: State, encode: Json -> seq<Byte>): string {
    "#s=" + Base64UrlEncode(encode(BuildSharePayload(mode, items, powers)))
  }

  /** The decoding half of `tryLoadFromHash`: None when there is no `s=` parameter or when a
      step throws; `decode` stands for `Gzip.decompress` followed by `JSON.parse`. */
  function LoadFromHash(hash: string, decode: seq<Byte> -> Option<Json>): (r: Option<Restored>)
    ensures ShareParam(hash).None? ==> r.None?
  {
    match ShareParam(hash)
    case None => None
    case Some(param) =>
      match Base64UrlDecode(param)
      case None => None
      case Some(bytes) =>
        match decode(bytes)
        case None => None
        case Some(payload) => Some(ApplySharePayload(payload))
  }

  /** A successful load always carries a mode and both states, each state coerced by
      `fixStateShape` from a decoded payload. */
  lemma LoadFromHashSucceeds(hash: string, decode: seq<Byte> -> Option<Json>)
    ensures LoadFromHash(hash, decode).Some? <==>
              ShareParam(hash).Some? && Base64UrlDecode(ShareParam(hash).value).Some?
              && decode(Base64UrlDecode(ShareParam(hash).value).value).Some?
    ensures LoadFromHash(hash, decode).Some? ==>
              LoadFromHash(hash, decode).value
                == ApplySharePayload(decode(Base64UrlDecode(ShareParam(hash).value).value).value)
  {
  }

  /** The whole chain round-trips: loading the fragment a share link carries restores the
      shared mode and both states, provided the JSON/gzip pair round-trips on that payload
      and yields at least one byte (gzip's header alone is ten). */
  lemma ShareLinkRoundTrip(mode: Mode, items: State, powers: State,
                           encode: Json -> seq<Byte>, decode: seq<Byte> -> Option<Json>)
    requires decode(encode(BuildSharePayload(mode, items, powers))) == Some(BuildSharePayload(mode, items, powers))
    requires |encode(BuildSharePayload(mode, items, powers))| > 0
    ensures LoadFromHash(ShareFragment(mode, items, powers, encode), decode) == Some(Restored(mode, items, powers))
  {
    var payload := BuildSharePayload(mode, items, powers);
    var bytes := encode(payload);
    var u := Base64UrlEncode(bytes);
    EncodeForm(bytes);
    EncodeUrlSafe(bytes);
    FragmentParam(u);
    DecodeEncode(bytes);
    ShareRoundTrip(mode, items, powers);
  }

  /** The parameter of `#s=u`, for non-empty URL-safe `u`, is `u`. */
  lemma FragmentParam(u: string)
    requires |u| > 0
    requires forall i :: 0 <= i < |u| ==> IsUrlChar(u[i])
    ensures ShareParam("#s=" + u) == Some(u)
  {
    var h := "#s=" + u;
    assert h[3] == u[0];
    assert MatchesAt(h, 0);
    forall p | 3 <= p < |h| ensures IsUrlChar(h[p]) {
      assert h[p] == u[p - 3];
    }
    RunToEnd(h, 3);
    assert h[3..] == u;
    assert h[3 .. RunEnd(h, 3)] == u;
    assert FindShare(h, 0) == Some(u);
  }

  /** A hash that is URL-safe from `j` on is captured to its end. */
  lemma {:induction false} RunToEnd(h: string, j: nat)
    requires j <= |h|
    requires forall p :: j <= p < |h| ==> IsUrlChar(h[p])
    ensures RunEnd(h, j) == |h|
    decreases |h| - j
  {
    if j < |h| {
      RunToEnd(h, j + 1);
    }
  }
}
