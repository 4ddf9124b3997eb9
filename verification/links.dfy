/**
 * The two links the front end builds from the generated code: the viewer
 * address, whose fragment carries the code as a `script` parameter, and the
 * download link, a `data:` URL as section 2 of RFC 2397 lays it out. Each
 * comes with the reading that recovers the code from it.
 */
module Links {
  import opened Wrappers
  import opened Text
  import opened Utf
  import opened Uri

  /** `encodeURIComponent` applied to a JavaScript string holding `s`. */
  function EncodeComponent(s: string): (t: string)
    ensures Encode(Units(s)) == Success(t)
    ensures Safe(t)
  {
    EncodeUnits(s);
    EscapeText(s)
  }

  const ViewerPage: string := "https://openscad.cloud/openscad/"
  const ViewerPrefix: string := ViewerPage + "#script="

  /** The address handed to the viewer frame. */
  function ViewerUrl(code: string): string {
    ViewerPrefix + EncodeComponent(code)
  }

  /** Everything after the first `#`, if there is one. */
  function Fragment(url: string): (r: Option<string>)
    ensures r.Some? ==> '#' in url
  {
    match Find(url, "#", 0)
    case None => None
    case Some(k) =>
      assert url[k] == url[k..k + 1][0];
      Some(url[k + 1..])
  }

  /** The value of the first `script=` parameter among the `&`-separated fragment parameters, decoded. */
  function ScriptOf(url: string): Option<string> {
    match Fragment(url)
    case None => None
    case Some(f) =>
      var ps := Split(f, '&');
      ParamValue(ps, "script")
  }

  function ParamValue(ps: seq<string>, name: string): Option<string> {
    if ps == [] then None
    else
      var kv := Split(ps[0], '=');
      if |kv| == 2 && kv[0] == name then DecodeComponent(kv[1])
      else ParamValue(ps[1..], name)
  }

  /** The fragment of the viewer address is `script=` and the encoded code, since the encoding holds no `#`. */
  lemma ViewerFragment(code: string)
    ensures Fragment(ViewerUrl(code)) == Some("script=" + EncodeComponent(code))
  {
    var e := EncodeComponent(code);
    var url := ViewerUrl(code);
    var k := |ViewerPage|;
    assert url == ViewerPage + "#" + ("script=" + e);
    assert forall j | 0 <= j < k :: ViewerPage[j] != '#';
    FindChar(url, '#', 0, k);
    assert url[k + 1..] == "script=" + e;
  }

  lemma ParamValueOne(f: string, name: string, v: string)
    requires Split(f, '=') == [name, v]
    ensures ParamValue([f], name) == DecodeComponent(v)
  {
  }

  /** A fragment that is one `script` parameter with a safe value yields that value, decoded. */
  lemma ScriptParameter(e: string)
    requires Safe(e)
    ensures ParamValue(Split("script=" + e, '&'), "script") == DecodeComponent(e)
  {
    var f := "script=" + e;
    SafeExcludes(e);
    assert '&' !in f by {
      assert forall j | 7 <= j < |f| :: f[j] == e[j - 7];
    }
    SplitJoin([f], '&');
    assert f == JoinWith(["script", e], '=');
    SplitJoin(["script", e], '=');
    ParamValueOne(f, "script", e);
  }

  /** The code travels to the viewer intact: it is the decoded `script` parameter of the fragment. */
  lemma ViewerUrlCarriesCode(code: string)
    ensures ScriptOf(ViewerUrl(code)) == Some(code)
  {
    ViewerFragment(code);
    ScriptParameter(EncodeComponent(code));
    DecodeEscapeText(code);
  }

  /** A parsed `data:` URL: media type, its parameters, the base64 flag and the data part. */
  datatype DataUrl = DataUrl(mediaType: string, parameters: seq<(string, string)>, base64: bool, data: string)

  /** `attribute=value`, split at its one `=`. */
  function Parameter(p: string): Option<(string, string)> {
    var kv := Split(p, '=');
    if |kv| == 2 then Some((kv[0], kv[1])) else None
  }

  function Parameters(ps: seq<string>): (r: Option<seq<(string, string)>>)
    ensures r.Some? ==> |r.value| == |ps|
  {
    if ps == [] then Some([])
    else
      var p, rest := Parameter(ps[0]), Parameters(ps[1..]);
      if p.Some? && rest.Some? then Some([p.value] + rest.value) else None
  }

  /**
   * RFC 2397's `"data:" [ mediatype ] [ ";base64" ] "," data`: the header
   * runs to the first comma; it is the media type, then `;`-separated
   * parameters, the last of which may be the `base64` flag.
   */
  function ParseDataUrl(u: string): (r: Option<DataUrl>)
    ensures r.Some? ==> IsAt(u, 0, "data:") && ',' in u
  {
    if !IsAt(u, 0, "data:") then None
    else
      match Find(u, ",", 5)
      case None => None
      case Some(k) =>
        assert u[k] == u[k..k + 1][0];
        var parts := Split(u[5..k], ';');
        var base64 := |parts| >= 2 && parts[|parts| - 1] == "base64";
        var ps := parts[1..|parts| - (if base64 then 1 else 0)];
        match Parameters(ps)
        case None => None
        case Some(params) => Some(DataUrl(parts[0], params, base64, u[k + 1..]))
  }

  /** The text a `text/plain` data URL with a UTF-8 charset and percent-escaped data stands for. */
  function DocumentText(u: string): Option<string> {
    match ParseDataUrl(u)
    case None => None
    case Some(d) =>
      if d.mediaType == "text/plain" && d.parameters == [("charset", "utf-8")] && !d.base64
      then DecodeComponent(d.data)
      else None
  }

  const DownloadType: string := "text/plain;charset=utf-8"
  const DownloadHeader: string := "data:" + DownloadType + ","

  /** The `href` of the download link. */
  function DownloadHref(code: string): string {
    DownloadHeader + EncodeComponent(code)
  }

  lemma CharsetParameter()
    ensures Parameter("charset=utf-8") == Some(("charset", "utf-8"))
  {
    assert "charset=utf-8" == JoinWith(["charset", "utf-8"], '=');
    SplitJoin(["charset", "utf-8"], '=');
  }

  lemma ParametersOne(p: string, kv: (string, string))
    requires Parameter(p) == Some(kv)
    ensures Parameters([p]) == Some([kv])
  {
    assert [p][1..] == [];
    assert Parameters([p][1..]) == Some([]);
    assert [kv] + [] == [kv];
  }

  /** The media type of the download link splits into `text/plain` and one `charset=utf-8` parameter. */
  lemma DownloadTypeParts()
    ensures Split(DownloadType, ';') == ["text/plain", "charset=utf-8"]
    ensures Parameters(["charset=utf-8"]) == Some([("charset", "utf-8")])
  {
    assert DownloadType == JoinWith(["text/plain", "charset=utf-8"], ';');
    SplitJoin(["text/plain", "charset=utf-8"], ';');
    CharsetParameter();
    ParametersOne("charset=utf-8", ("charset", "utf-8"));
  }

  /** The download link is a well-formed data URL of type `text/plain`, charset UTF-8, not base64, holding the encoded code. */
  lemma DownloadHrefParses(code: string)
    ensures ParseDataUrl(DownloadHref(code)) ==
      Some(DataUrl("text/plain", [("charset", "utf-8")], false, EncodeComponent(code)))
  {
    var e := EncodeComponent(code);
    var u := DownloadHref(code);
    var k := 5 + |DownloadType|;
    assert u == "data:" + DownloadType + "," + e;
    assert IsAt(u, 0, "data:") by {
      assert u[..5] == "data:";
    }
    assert forall j | 0 <= j < |DownloadType| :: DownloadType[j] != ',';
    FindChar(u, ',', 5, k);
    assert u[5..k] == DownloadType;
    DownloadTypeParts();
    var parts := ["text/plain", "charset=utf-8"];
    assert parts[1..] == ["charset=utf-8"];
    ParseTwoParts(u, k, parts, [("charset", "utf-8")]);
    assert u[k + 1..] == e;
  }

  /** A header of a media type and one parameter other than `base64` parses to them. */
  lemma ParseTwoParts(u: string, k: nat, parts: seq<string>, params: seq<(string, string)>)
    requires IsAt(u, 0, "data:") && 5 <= k < |u| && Find(u, ",", 5) == Some(k)
    requires Split(u[5..k], ';') == parts && |parts| == 2 && parts[1] != "base64"
    requires Parameters(parts[1..]) == Some(params)
    ensures ParseDataUrl(u) == Some(DataUrl(parts[0], params, false, u[k + 1..]))
  {
    assert parts[1..|parts| - 0] == parts[1..];
  }

  /** Opening the downloaded file gives back exactly the code. */
  lemma DownloadHrefCarriesCode(code: string)
    ensures DocumentText(DownloadHref(code)) == Some(code)
  {
    DownloadHrefParses(code);
    DecodeEscapeText(code);
  }
}
