/** The client's HTTP helpers: the request interceptor that attaches the
    stored token, and the file name a download is saved under, read from
    the `filename` parameter of the Content-Disposition header (section
    4.1 of RFC 6266, without quoted-pair escapes or `filename*`). */
module ClientApi {
  import opened Common
  import opened Strings

  /* ---------------------------------------------------------------- */
  /* the request interceptor                                           */

  const AUTHORIZATION: string := "Authorization"
  const BEARER: string := "Bearer "

  /** The credentials a header value carries: what follows the `Bearer `
      scheme. */
  function BearerToken(header: string): (r: Option<string>)
    ensures r.Some? ==> header == BEARER + r.value
    ensures r.None? ==> !(|BEARER| <= |header| && header[..|BEARER|] == BEARER)
  {
    if |BEARER| <= |header| && header[..|BEARER|] == BEARER then
      assert header == header[..|BEARER|] + header[|BEARER|..];
      Some(header[|BEARER|..])
    else None
  }

  /** The value of the Authorization header for the stored token: present
      exactly when a token is stored, and carrying that token. */
  function AuthorizationHeader(token: Option<string>): (h: Option<string>)
    ensures h.Some? <==> Truthy(token)
    ensures h.Some? ==> BearerToken(h.value) == token
  {
    if Truthy(token) then
      var h := BEARER + token.value;
      assert h[..|BEARER|] == BEARER;
      Some(h)
    else None
  }

  /** The headers of an outgoing request, which the interceptor edits in
      place. */
  class RequestConfig {
    var headers: map<string, string>

    constructor (headers: map<string, string>)
      ensures this.headers == headers
    {
      this.headers := headers;
    }
  }

  /** The request interceptor: sets the Authorization header when a token
      is stored and leaves every header alone otherwise. */
  method Intercept(config: RequestConfig, storedToken: Option<string>)
    modifies config
    ensures AuthorizationHeader(storedToken).Some? ==>
      config.headers == old(config.headers)[AUTHORIZATION := AuthorizationHeader(storedToken).value]
    ensures AuthorizationHeader(storedToken).None? ==> config.headers == old(config.headers)
  {
    if Truthy(storedToken) {
      config.headers := config.headers[AUTHORIZATION := BEARER + storedToken.value];
    }
  }

  /* ---------------------------------------------------------------- */
  /* the download file name                                            */

  const FILENAME: string := "filename="
  const DEFAULT_NAME: string := "note"

  /** The characters the pattern's `[^";]` class excludes. */
  predicate Excluded(c: char)
  {
    c == '"' || c == ';'
  }

  /** The length of the longest run of allowed characters from `i`. */
  function RunLength(s: string, i: nat): (n: nat)
    requires i <= |s|
    ensures i + n <= |s|
    ensures forall k :: i <= k < i + n ==> !Excluded(s[k])
    ensures i + n == |s| || Excluded(s[i + n])
    decreases |s| - i
  {
    if i == |s| || Excluded(s[i]) then 0 else 1 + RunLength(s, i + 1)
  }

  /** The value the pattern captures when its `filename=` is the one at
      `p`: the optional quote is skipped, and the capture is the longest run
      of allowed characters after it; there is no match at `p` when that
      run is empty (a quote right after `filename=` then cannot start the
      run either). */
  function MatchAt(s: string, p: nat): (r: Option<string>)
    requires OccursAt(s, FILENAME, p)
    ensures r.Some? ==> r.value != [] && forall k :: 0 <= k < |r.value| ==> !Excluded(r.value[k])
  {
    var q := p + |FILENAME|;
    var start := if q < |s| && s[q] == '"' then q + 1 else q;
    var n := RunLength(s, start);
    if n == 0 then None
    else
      var run := s[start..start + n];
      assert forall k :: 0 <= k < n ==> run[k] == s[start + k];
      Some(run)
  }

  predicate MatchesAt(s: string, p: nat)
  {
    OccursAt(s, FILENAME, p) && MatchAt(s, p).Some?
  }

  /** The regular expression's search: the first place where it matches. */
  function FindFilename(s: string, from: nat): (r: Option<string>)
    ensures r.Some? ==> r.value != [] && forall k :: 0 <= k < |r.value| ==> !Excluded(r.value[k])
    decreases |s| - from
  {
    if from > |s| then None
    else if MatchesAt(s, from) then MatchAt(s, from)
    else FindFilename(s, from + 1)
  }

  /** Where nothing matches, the search goes on from the next place. */
  lemma {:induction false} FindFilenameSkip(s: string, from: nat, to: nat)
    requires from <= to <= |s|
    requires forall p :: from <= p < to ==> !MatchesAt(s, p)
    ensures FindFilename(s, from) == FindFilename(s, to)
    decreases (to as int) - (from as int)
  {
    if from < to {
      assert !MatchesAt(s, from);
      FindFilenameSkip(s, from + 1, to);
    }
  }

  /** The name the download is saved under: the captured file name when
      there is a header and the pattern matches it, otherwise the fallback
      name, or `note` when that is empty. */
  function ExtractFilename(disposition: Option<string>, fallbackName: Option<string>): (r: string)
    ensures !Truthy(disposition) ==> r == OrElse(fallbackName, DEFAULT_NAME)
    ensures Truthy(disposition) && FindFilename(disposition.value, 0).None? ==>
              r == OrElse(fallbackName, DEFAULT_NAME)
    ensures Truthy(disposition) && FindFilename(disposition.value, 0).Some? ==>
              r != [] && forall k :: 0 <= k < |r| ==> !Excluded(r[k])
  {
    var fallback := OrElse(fallbackName, DEFAULT_NAME);
    if !Truthy(disposition) then fallback
    else match FindFilename(disposition.value, 0)
      case Some(name) => name
      case None => fallback
  }

  /** Whatever the header, a download is never saved under an empty name
      or one holding a quote or a semicolon (when the fallback has
      neither). */
  lemma ExtractFilenameClean(disposition: Option<string>, fallbackName: Option<string>)
    requires fallbackName.Some? ==> forall k :: 0 <= k < |fallbackName.value| ==> !Excluded(fallbackName.value[k])
    ensures var r := ExtractFilename(disposition, fallbackName);
      r != [] && forall k :: 0 <= k < |r| ==> !Excluded(r[k])
  {
  }

  const ATTACHMENT: string := "attachment; "

  /** The header a download sends for a plain file name. */
  function AttachmentHeader(name: string): string
  {
    ATTACHMENT + FILENAME + "\"" + name + "\""
  }

  /** Reading back the header of a download gives the name it was sent
      under, for a non-empty name without quotes and semicolons. */
  lemma {:induction false} ExtractFromAttachment(name: string, fallbackName: Option<string>)
    requires name != [] && forall k :: 0 <= k < |name| ==> !Excluded(name[k])
    ensures ExtractFilename(Some(AttachmentHeader(name)), fallbackName) == name
  {
    var h := AttachmentHeader(name);
    var p := |ATTACHMENT|;
    var start := p + |FILENAME| + 1;
    assert h[..p] == ATTACHMENT;
    forall q | 0 <= q < p ensures !OccursAt(h, FILENAME, q) {
      assert h[q] == ATTACHMENT[q] != 'f';
      if q + |FILENAME| <= |h| {
        assert h[q..q + |FILENAME|][0] == h[q];
      }
    }
    FindFilenameSkip(h, 0, p);
    assert h[p..p + |FILENAME|] == FILENAME;
    assert h[p + |FILENAME|] == '"';
    assert h[start..start + |name|] == name;
    assert h[start + |name|] == '"';
    RunFromHere(h, start, |name|);
  }

  /** A run of allowed characters ended by an excluded one is the longest
      run. */
  lemma {:induction false} RunFromHere(s: string, i: nat, n: nat)
    requires i + n < |s| && Excluded(s[i + n])
    requires forall k :: i <= k < i + n ==> !Excluded(s[k])
    ensures RunLength(s, i) == n
    decreases n
  {
    if n > 0 {
      RunFromHere(s, i + 1, n - 1);
    }
  }
}
