/**
 * The update check of GitHubUpdater: which installer the "latest release" document of
 * the GitHub REST API points at, and the request / token-retry decision around it.
 * The JSON text arrives already parsed; the HTTP exchange is given as its outcomes.
 */
module Release {
  import opened Wrappers
  import opened Text
  import VersionCompare

  /** A parsed JSON value. Numbers and booleans are never inspected, so they share a case. */
  datatype Json =
    | JNull
    | JString(text: string)
    | JArray(items: seq<Json>)
    | JObject(fields: map<string, Json>)
    | JScalar

  /** What a `JsonElement` accessor produced: a value, or the exception it threw. */
  datatype Outcome<T> = Value(value: T) | Throws

  /** `element.TryGetProperty(key, out v)`: throws unless `element` is an object. */
  function TryGetProperty(element: Json, key: string): Outcome<Option<Json>> {
    match element
    case JObject(fields) => Value(if key in fields then Some(fields[key]) else None)
    case _ => Throws
  }

  /** `element.GetString()`: the text of a string, null for JSON null, throws otherwise. */
  function GetString(element: Json): Outcome<Option<string>> {
    match element
    case JString(t) => Value(Some(t))
    case JNull => Value(None)
    case _ => Throws
  }

  /** The asset property holding the download URL: the API URL when the token was used,
      the browser URL otherwise. */
  function UrlKey(usedToken: bool): string {
    if usedToken then "url" else "browser_download_url"
  }

  const InstallerSuffix: string := ".msi"

  /** An asset the loop stops at: an object whose "name" is a string ending in ".msi"
      (letters compared without case) and that carries the URL property `urlKey`. */
  ghost predicate Qualifies(asset: Json, urlKey: string) {
    asset.JObject? && "name" in asset.fields && asset.fields["name"].JString?
    && EndsWithIgnoreCase(asset.fields["name"].text, InstallerSuffix)
    && urlKey in asset.fields
  }

  /** The outcome of one pass of the asset loop: go on, stop with the URL read (null
      when the property holds JSON null) and the name, or throw. */
  datatype Step = Skip | Take(url: Option<string>, name: string) | Fault

  /** One pass of the asset loop. It takes exactly the qualifying assets whose URL
      property is a string or null; it never takes one that does not qualify. */
  function Inspect(asset: Json, urlKey: string): (s: Step)
    ensures s.Take? <==> (Qualifies(asset, urlKey)
                          && (asset.fields[urlKey].JString? || asset.fields[urlKey].JNull?))
    ensures s.Take? ==> s.name == asset.fields["name"].text
                        && s.url == (if asset.fields[urlKey].JString?
                                     then Some(asset.fields[urlKey].text) else None)
    ensures s.Skip? ==> !Qualifies(asset, urlKey)
    ensures !asset.JObject? ==> s.Fault?
  {
    match TryGetProperty(asset, "name")
    case Throws => Fault
    case Value(None) => Skip
    case Value(Some(nameProp)) =>
      match GetString(nameProp)
      case Throws => Fault
      case Value(None) => Skip
      case Value(Some(name)) =>
        if !EndsWithIgnoreCase(name, InstallerSuffix) then Skip
        else
          match TryGetProperty(asset, urlKey)
          case Throws => Fault
          case Value(None) => Skip
          case Value(Some(urlElement)) =>
            match GetString(urlElement)
            case Throws => Fault
            case Value(url) => Take(url, name)
  }

  /** Index of the asset at which the loop leaves (taking it or throwing), if any: every
      asset before it is skipped. */
  function FirstStop(assets: seq<Json>, urlKey: string): (r: Option<nat>)
    ensures r.None? ==> forall i :: 0 <= i < |assets| ==> Inspect(assets[i], urlKey).Skip?
    ensures r.Some? ==> r.value < |assets| && !Inspect(assets[r.value], urlKey).Skip?
    ensures r.Some? ==> forall j :: 0 <= j < r.value ==> Inspect(assets[j], urlKey).Skip?
    decreases |assets|
  {
    if |assets| == 0 then None
    else if !Inspect(assets[0], urlKey).Skip? then Some(0)
    else
      match FirstStop(assets[1..], urlKey)
      case None => None
      case Some(i) => Some(i + 1)
  }

  /** The whole asset loop: skipped entirely unless "assets" is an array. */
  function AssetStep(root: Json, urlKey: string): Step {
    match TryGetProperty(root, "assets")
    case Throws => Fault
    case Value(Some(JArray(items))) =>
      (match FirstStop(items, urlKey)
       case None => Skip
       case Some(i) => Inspect(items[i], urlKey))
    case Value(_) => Skip
  }

  /** What the update check hands back: the release tag, the download URL and the
      installer's file name. */
  datatype ReleaseInfo = ReleaseInfo(version: string, url: string, fileName: string)

  /** `ParseReleaseInfo`'s outcome: an answer, null for a document without a tag, or an
      exception (which the caller turns into null as well). */
  datatype Parsed = Found(info: ReleaseInfo) | NoTag | Faulted

  /** The installer name built from the tag without its leading v/V characters. */
  function FallbackName(tag: string): string {
    "Temp_Cleaner-" + TrimStart(tag, VersionCompare.VersionPrefix) + InstallerSuffix
  }

  /** The release-download URL built from owner, repository and the tag as written. */
  function FallbackUrl(owner: string, repo: string, tag: string): string {
    "https://github.com/" + owner + "/" + repo + "/releases/download/" + tag + "/" + FallbackName(tag)
  }

  function Fallback(owner: string, repo: string, tag: string): ReleaseInfo {
    ReleaseInfo(tag, FallbackUrl(owner, repo, tag), FallbackName(tag))
  }

  /** The tag a document carries: the "tag_name" string, "" for JSON null, and None when
      there is no usable tag. */
  function TagOf(root: Json): Option<string> {
    if root.JObject? && "tag_name" in root.fields then
      match root.fields["tag_name"]
      case JString(t) => Some(t)
      case JNull => Some("")
      case _ => None
    else None
  }

  /** `ParseReleaseInfo`: null exactly when the document has no "tag_name"; otherwise
      the raw tag as version, a non-empty URL and a file name ending in ".msi". */
  function ParseReleaseInfo(root: Json, owner: string, repo: string, usedToken: bool): (r: Parsed)
    ensures r.NoTag? <==> root.JObject? && "tag_name" !in root.fields
    ensures !root.JObject? ==> r.Faulted?
    ensures r.Found? ==> TagOf(root) == Some(r.info.version)
    ensures r.Found? ==> |r.info.url| > 0 && EndsWithIgnoreCase(r.info.fileName, InstallerSuffix)
  {
    match TryGetProperty(root, "tag_name")
    case Throws => Faulted
    case Value(None) => NoTag
    case Value(Some(tagElement)) =>
      match GetString(tagElement)
      case Throws => Faulted
      case Value(t) =>
        var tag := t.GetOr("");
        match AssetStep(root, UrlKey(usedToken))
        case Fault => Faulted
        case Skip => FallbackFound(owner, repo, tag)
        case Take(url, name) =>
          if url == None || url == Some("") then FallbackFound(owner, repo, tag)
          else
            assert EndsWithIgnoreCase(name, InstallerSuffix) by {
              TakenNameIsInstaller(root, UrlKey(usedToken));
            }
            Found(ReleaseInfo(tag, url.value, name))
  }

  /** The fallback answer, whose name ends in the installer suffix. */
  function FallbackFound(owner: string, repo: string, tag: string): (r: Parsed)
    ensures r == Found(Fallback(owner, repo, tag))
    ensures EndsWithIgnoreCase(r.info.fileName, InstallerSuffix) && |r.info.url| > 0
  {
    EndsWithSelf("Temp_Cleaner-" + TrimStart(tag, VersionCompare.VersionPrefix), InstallerSuffix);
    Found(Fallback(owner, repo, tag))
  }

  /** A string ends with itself appended, whatever the case folding. */
  lemma {:induction false} EndsWithSelf(prefix: string, suffix: string)
    ensures EndsWithIgnoreCase(prefix + suffix, suffix)
  {
    var s := prefix + suffix;
    forall i | 0 <= i < |suffix|
      ensures UpperAscii(s[|s| - |suffix| + i]) == UpperAscii(suffix[i])
    {
      assert s[|s| - |suffix| + i] == suffix[i];
    }
  }

  /** The name the asset loop takes is an installer name. */
  lemma {:induction false} TakenNameIsInstaller(root: Json, urlKey: string)
    requires AssetStep(root, urlKey).Take?
    ensures EndsWithIgnoreCase(AssetStep(root, urlKey).name, InstallerSuffix)
  {
  }

  /** The first qualifying asset with a non-empty URL decides the answer, provided no
      earlier asset throws: its URL and its own name are returned with the raw tag. */
  lemma {:induction false} FirstInstallerChosen(root: Json, owner: string, repo: string,
                                                usedToken: bool, i: nat)
    requires TagOf(root).Some? && "assets" in root.fields && root.fields["assets"].JArray?
    requires var items := root.fields["assets"].items;
             i < |items| && Qualifies(items[i], UrlKey(usedToken))
             && items[i].fields[UrlKey(usedToken)].JString?
             && items[i].fields[UrlKey(usedToken)].text != ""
             && forall j :: 0 <= j < i ==> Inspect(items[j], UrlKey(usedToken)).Skip?
    ensures var asset := root.fields["assets"].items[i];
            ParseReleaseInfo(root, owner, repo, usedToken)
              == Found(ReleaseInfo(TagOf(root).value, asset.fields[UrlKey(usedToken)].text,
                                   asset.fields["name"].text))
  {
    var items := root.fields["assets"].items;
    assert FirstStop(items, UrlKey(usedToken)) == Some(i);
  }

  /** A first qualifying asset whose URL is null or empty ends the loop all the same:
      the answer is the fallback, whatever URLs later assets carry. */
  lemma {:induction false} EmptyUrlFallsBack(root: Json, owner: string, repo: string,
                                             usedToken: bool, i: nat)
    requires TagOf(root).Some? && "assets" in root.fields && root.fields["assets"].JArray?
    requires var items := root.fields["assets"].items;
             i < |items| && Qualifies(items[i], UrlKey(usedToken))
             && (items[i].fields[UrlKey(usedToken)].JNull?
                 || items[i].fields[UrlKey(usedToken)] == JString(""))
             && forall j :: 0 <= j < i ==> Inspect(items[j], UrlKey(usedToken)).Skip?
    ensures ParseReleaseInfo(root, owner, repo, usedToken) == Found(Fallback(owner, repo, TagOf(root).value))
  {
    var items := root.fields["assets"].items;
    assert FirstStop(items, UrlKey(usedToken)) == Some(i);
  }

  /** An asset the loop passes over without throwing: an object that does not qualify
      and whose "name", if present, is a string or null. */
  ghost predicate PassedOver(asset: Json, urlKey: string) {
    asset.JObject? && !Qualifies(asset, urlKey)
    && ("name" in asset.fields ==> asset.fields["name"].JString? || asset.fields["name"].JNull?)
  }

  /** The assets of a document, or none when "assets" is missing or not an array. */
  function AssetsOf(root: Json): seq<Json> {
    if root.JObject? && "assets" in root.fields && root.fields["assets"].JArray?
    then root.fields["assets"].items else []
  }

  /** When every asset is passed over, the answer is the fallback built from owner,
      repository and tag. */
  lemma {:induction false} FallbackWithoutInstaller(root: Json, owner: string, repo: string,
                                                    usedToken: bool)
    requires TagOf(root).Some?
    requires forall j :: 0 <= j < |AssetsOf(root)| ==> PassedOver(AssetsOf(root)[j], UrlKey(usedToken))
    ensures ParseReleaseInfo(root, owner, repo, usedToken)
              == Found(Fallback(owner, repo, TagOf(root).value))
  {
    NoStopWithoutInstaller(AssetsOf(root), UrlKey(usedToken));
  }

  /** The loop runs through assets that are all passed over. */
  lemma {:induction false} NoStopWithoutInstaller(assets: seq<Json>, urlKey: string)
    requires forall j :: 0 <= j < |assets| ==> PassedOver(assets[j], urlKey)
    ensures FirstStop(assets, urlKey).None?
  {
    forall j | 0 <= j < |assets|
      ensures Inspect(assets[j], urlKey).Skip?
    {
      PassedOverSkipped(assets[j], urlKey);
    }
  }

  /** An asset passed over is skipped. */
  lemma {:induction false} PassedOverSkipped(asset: Json, urlKey: string)
    requires PassedOver(asset, urlKey)
    ensures Inspect(asset, urlKey).Skip?
  {
  }

  /** The outcome of one `SendAsync`: a response (its success flag and, for a success,
      the body when it parses as JSON) or an exception such as a timeout. */
  datatype Response = Response(success: bool, body: Option<Json>) | SendFailed

  /** A request for the latest release, anonymous (None) or with a bearer token. */
  type Request = Option<string>

  /** The requests sent, in order, and the release found (None stands for null). */
  datatype UpdateCheck = UpdateCheck(requests: seq<Request>, result: Option<ReleaseInfo>)

  /** The retry rule: a second, authenticated request follows exactly a first response
      that is not a success when a non-blank token is configured. */
  predicate Retries(first: Response, token: string) {
    first.Response? && !first.success && !IsBlank(token)
  }

  /** `GetLatestReleaseVersionAsync`. `first` and `second` are what the anonymous and
      the authenticated request would get back; only the requests actually sent appear
      in the trace, the token trimmed and never blank, and the answer is null unless the
      final response is a success whose document yields a release. */
  function GetLatestRelease(owner: string, repo: string, token: string,
                            first: Response, second: Response): (c: UpdateCheck)
    ensures 1 <= |c.requests| <= 2 && c.requests[0] == None
    ensures |c.requests| == 2 <==> Retries(first, token)
    ensures |c.requests| == 2 ==> c.requests[1] == Some(Trim(token)) && |Trim(token)| > 0
    ensures var final := if Retries(first, token) then second else first;
            c.result.Some? <==>
              final.Response? && final.success && final.body.Some?
              && ParseReleaseInfo(final.body.value, owner, repo, Retries(first, token)).Found?
    ensures c.result.Some? ==>
              var final := if Retries(first, token) then second else first;
              Found(c.result.value)
                == ParseReleaseInfo(final.body.value, owner, repo, Retries(first, token))
  {
    var usedToken := Retries(first, token);
    var requests := if usedToken then [None, Some(Trim(token))] else [None];
    var final := if usedToken then second else first;
    if final.SendFailed? || !final.success || final.body.None? then
      UpdateCheck(requests, None)
    else
      match ParseReleaseInfo(final.body.value, owner, repo, usedToken)
      case Found(info) => UpdateCheck(requests, Some(info))
      case _ => UpdateCheck(requests, None)
  }

  /** A failed first exchange (an exception rather than a response) ends the check
      with null and no retry, token or not. */
  lemma {:induction false} NoRetryAfterException(owner: string, repo: string, token: string,
                                                 second: Response)
    ensures GetLatestRelease(owner, repo, token, SendFailed, second) == UpdateCheck([None], None)
  {
  }
}
