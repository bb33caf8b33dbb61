/**
  install_pack.js: the project lookup of `determineProjectByID`, the
  progress bar, the redirect chain of `hitFile` and `curseFile`, the strictly
  ordered downloads of `modpackStep1`, the move of the overrides in
  `modpackStep2`, and the archive name check of `downloadModpackFile`.
 */
module JsInstall {
  import opened Text
  import opened Tree
  import opened Http
  import Py = PyInstall

  /** What a callback is handed as its error. `Crashed` stands for an
      exception nothing catches, which ends the process. */
  datatype JsError =
    | NoLoc                         // the lookup response has no `location`
    | LookupFailed                  // the slug decodes to the empty string
    | FailedDownload(fname: string) // a 404, reported with the name passed in
    | StreamError                   // the response stream failed midway
    | MakeDirFailed                 // `mkdirSync` failed other than with EEXIST
    | NoManifest                    // manifest.json could not be loaded
    | NoFilesInManifest             // the manifest has no `files`
    | UnsupportedArchive            // the downloaded name has no `.zip`
    | Crashed

  // ---------------------------------------------------------------------------
  // determineProjectByID
  // ---------------------------------------------------------------------------

  /** The callback of `determineProjectByID`, given the `location` header: the
      last `/`-segment with one leading `digits-` removed, decoded afterwards;
      a missing or empty header is `noloc`, an empty name `failed`, and a
      malformed escape makes `decodeURIComponent` throw. */
  function ProjectName(location: Option<string>): (r: Result<string, JsError>)
    ensures r == Err(NoLoc) <==> location.None? || location.value == ""
    ensures r.Ok? ==> r.value != "" && Some(r.value) == DecodeComponent(StripIdPrefix(LastSegment(location.value)))
    ensures r.Err? && location.Some? && location.value != "" ==>
      r.error == (if DecodeComponent(StripIdPrefix(LastSegment(location.value))).None? then Crashed else LookupFailed)
  {
    if location.None? || location.value == "" then Err(NoLoc)
    else
      match DecodeComponent(StripIdPrefix(LastSegment(location.value)))
      case None => Err(Crashed)
      case Some(n) => if n == "" then Err(LookupFailed) else Ok(n)
  }

  /** A location `.../<id>-<escaped slug>` gives back a non-empty slug. */
  lemma ProjectNameSlug(base: string, id: nat, slug: string)
    requires slug != ""
    ensures ProjectName(Some(base + "/" + Decimal(id) + "-" + EscapeSegment(slug))) == Ok(slug)
  {
    SlugSegment(base, id, slug);
    DecodeEscapeSegment(slug);
  }

  /** The segment of such a location, stripped, is the escaped slug. */
  lemma SlugSegment(base: string, id: nat, slug: string)
    ensures StripIdPrefix(LastSegment(base + "/" + Decimal(id) + "-" + EscapeSegment(slug))) == EscapeSegment(slug)
  {
    var digits, esc := Decimal(id), EscapeSegment(slug);
    var head := digits + "-";
    var seg := head + esc;
    DigitsAreLiteral(digits);
    assert '/' !in head;
    assert '/' !in seg;
    assert base + "/" + digits + "-" + esc == base + "/" + seg;
    LastSegmentAfterSlash(base, seg);
    StripDecimalPrefix(id, EscapeSegment(slug));
  }

  /** Stripping before decoding is not decoding before stripping: an escaped
      digit is no `digits-` prefix here, but is one for `project_by_id`. */
  lemma ProjectNameDiffersFromPython()
    ensures ProjectName(Some("p/%31-a")) == Ok("1-a")
    ensures Py.ProjectById(Some("p/%31-a")) == Some("a")
  {
    var seg := "%31-a";
    LastSegmentAfterSlash("p", seg);
    assert "p" + "/" + seg == "p/%31-a";
    EscapedDigitNoPrefix();
    EscapedDigitDecodes();
    var plain := "1-a";
    assert IdPrefixed(plain, 1);
    assert plain[2..] == "a";
  }

  lemma EscapedDigitNoPrefix()
    ensures StripIdPrefix("%31-a") == "%31-a"
  {
    var seg := "%31-a";
    forall k: nat ensures !IdPrefixed(seg, k) {
      if 0 < k < |seg| {
        assert seg[..k][0] == seg[0];
      }
    }
  }

  lemma EscapedDigitDecodes()
    ensures DecodeComponent("%31-a") == Some("1-a") && Unquote("%31-a") == "1-a"
  {
    var seg := "%31-a";
    assert EscapeAt(seg, 0);
    assert HexValue('3') == 3 && HexValue('1') == 1;
    assert EscapedChar('3', '1') == '1';
    assert seg[3..] == "-a";
    assert "-a"[1..] == "a" && "a"[1..] == "";
    assert !EscapeAt("a", 0) && !EscapeAt("-a", 0);
    assert Unquote("a") == "a";
    assert Unquote("-a") == "-a";
    assert Unquote(seg) == ['1'] + Unquote("-a");
    assert ['1'] + "-a" == "1-a";
    assert !HasMalformedEscape("a");
    assert !HasMalformedEscape("-a");
    assert !HasMalformedEscape(seg);
  }

  /** `determineProjectByID` answered by net: a failed request leaves
      `response` null, and reading its headers throws. */
  function Lookup(net: seq<Response>): (r: Result<string, JsError>)
    ensures net == [] ==> r == Err(Crashed)
    ensures net != [] ==> r == ProjectName(net[0].location)
  {
    if net == [] then Err(Crashed) else ProjectName(net[0].location)
  }

  // ---------------------------------------------------------------------------
  // progress_bar
  // ---------------------------------------------------------------------------

  function Repeat(c: char, n: nat): (r: string)
    ensures |r| == n && forall i | 0 <= i < n :: r[i] == c
  {
    if n == 0 then "" else Repeat(c, n - 1) + [c]
  }

  /** The bar the loop of `progress_bar` builds in n steps: step i (from 1)
      adds '#' when i <= cnt and '-' otherwise. */
  function Bar(n: nat, cnt: int): (b: string)
    ensures |b| == n
    ensures forall i | 0 <= i < n :: b[i] == if i < cnt then '#' else '-'
  {
    if n == 0 then "" else Bar(n - 1, cnt) + (if n <= cnt then "#" else "-")
  }

  /** The bar is a run of '#' as long as cnt allows, then '-' up to n. */
  lemma {:induction false} BarShape(n: nat, cnt: int)
    ensures var k := if cnt < 0 then 0 else if cnt < n then cnt else n;
      Bar(n, cnt) == Repeat('#', k) + Repeat('-', n - k)
  {
    if n > 0 {
      BarShape(n - 1, cnt);
      var k := if cnt < 0 then 0 else if cnt < n - 1 then cnt else n - 1;
      if n <= cnt {
        assert k == n - 1;
        assert Repeat('-', 0) == "";
        assert Bar(n, cnt) == Repeat('#', n - 1) + "#";
      } else {
        assert Bar(n, cnt) == Repeat('#', k) + (Repeat('-', n - 1 - k) + "-");
      }
    }
  }

  /** `progress_bar(barsize, percentage)`, with cnt standing for
      `Math.floor(barsize * percentage)` and pct for
      `Math.floor(percentage * 100)`: a bar of barsize - 1 characters (none
      when barsize < 2) whose first cnt, clamped to the bar, are '#'. */
  method ProgressBar(barsize: int, cnt: int, pct: int) returns (s: string)
    ensures var n := if barsize > 1 then barsize - 1 else 0;
      var k := if cnt < 0 then 0 else if cnt < n then cnt else n;
      s == "[" + (Repeat('#', k) + Repeat('-', n - k)) + "] " + IntString(pct) + "%"
  {
    var n: nat := if barsize > 1 then barsize - 1 else 0;
    var k := if cnt < 0 then 0 else if cnt < n then cnt else n;
    var bar := BarLoop(n, cnt);
    BarShape(n, cnt);
    assert bar == Repeat('#', k) + Repeat('-', n - k);
    s := "[" + bar + "] " + IntString(pct) + "%";
  }

  /** The loop of `progress_bar`, for i from 1 below barsize = n + 1. */
  method BarLoop(n: nat, cnt: int) returns (bar: string)
    ensures bar == Bar(n, cnt)
  {
    bar := "";
    var i := 1;
    while i <= n
      invariant 1 <= i <= n + 1
      invariant bar == Bar(i - 1, cnt)
    {
      if i <= cnt {
        bar := bar + "#";
      } else {
        bar := bar + "-";
      }
      i := i + 1;
    }
  }

  // ---------------------------------------------------------------------------
  // hitFile
  // ---------------------------------------------------------------------------

  /** How a download ends: the tree, what the callback is handed, and the
      responses left. */
  datatype Got = Got(fs: Fs, result: Result<string, JsError>, rest: seq<Response>)

  /** The name `hitFile` reads off a URL: the decoded last path segment;
      `decodeURIComponent` throws on a malformed escape. */
  function UrlName(url: string): (r: Option<string>)
    ensures r.Some? ==> r.value == Py.NameUrl(url)
    ensures '%' !in url ==> r == Some(LastSegment(url))
  {
    if '%' !in url then LastSegmentLacks(url, '%'); DecodeComponent(LastSegment(url))
    else DecodeComponent(LastSegment(url))
  }

  /** `hitFile(link, target, fname, cb)` on tree t, answered by net: the name
      is taken from the URL before the request; a truthy `location` is
      followed with the name passed in unchanged; then a 404 fails with that
      name, an existing file succeeds without a write, and otherwise the body
      is written. Neither the request nor the file stream has an error
      listener, so a failed request or an unopenable file throws. */
  function HitResult(t: Fs, target: Path, url: string, fname: string, net: seq<Response>): (r: Got)
    ensures Suffix(r.rest, net)
    ensures UrlName(url).None? ==> r == Got(t, Err(Crashed), net)
    decreases |net|, 1
  {
    match UrlName(url)
    case None => SuffixRefl(net); Got(t, Err(Crashed), net)
    case Some(name) => HitNamed(t, target, url, name, fname, net)
  }

  /** `hitFile` once the name of url has been read. */
  function HitNamed(t: Fs, target: Path, url: string, name: string, fname: string, net: seq<Response>): (r: Got)
    ensures Suffix(r.rest, net)
    decreases |net|, 0
  {
    if net == [] then Got(t, Err(Crashed), [])
    else
      var response := net[0];
      SuffixTail(net);
      if response.location.Some? && response.location.value != "" then
        var r := HitResult(t, target, Resolve(url, response.location.value), fname, net[1..]);
        SuffixTrans(r.rest, net[1..], net);
        r
      else if response.status == 404 then Got(t, Err(FailedDownload(fname)), net[1..])
      else if name in Present(t, target) then Got(t, Ok(name), net[1..])
      else if !IsDir(t, target) then Got(t, Err(Crashed), net[1..])
      else
        Got(t[target + [name] := File(response.body)],
            if response.complete then Ok(name) else Err(StreamError),
            net[1..])
  }

  /** Following truthy `location` headers from url. */
  function Follow(url: string, net: seq<Response>): (c: Py.Chain)
    ensures |c.urls| >= 1 && c.urls[0] == url && Suffix(c.rest, net)
    ensures c.final.Some? ==> (c.final.value.location.None? || c.final.value.location.value == "")
    decreases |net|
  {
    if net == [] then Py.Chain([url], None, [])
    else if net[0].location.Some? && net[0].location.value != "" then
      var c := Follow(Resolve(url, net[0].location.value), net[1..]);
      SuffixTrans(c.rest, net[1..], net);
      Py.Chain([url] + c.urls, c.final, c.rest)
    else Py.Chain([url], Some(net[0]), net[1..])
  }

  /** The URL a chain ends at. */
  function FinalUrl(url: string, net: seq<Response>): (u: string)
    ensures u == Follow(url, net).urls[|Follow(url, net).urls| - 1]
    decreases |net|
  {
    if net != [] && net[0].location.Some? && net[0].location.value != "" then
      FinalUrl(Resolve(url, net[0].location.value), net[1..])
    else url
  }

  /** Every URL of the chain from url has a readable name. */
  predicate Decodable(url: string, net: seq<Response>): (b: bool)
    ensures b ==> UrlName(FinalUrl(url, net)).Some?
    decreases |net|
  {
    && UrlName(url).Some?
    && (net != [] && net[0].location.Some? && net[0].location.value != "" ==>
          Decodable(Resolve(url, net[0].location.value), net[1..]))
  }

  /** How a download ends, given the chain c it followed: by the last response
      of c, in the order 404, existing file, write, under the name of the
      last URL; the name passed in shows only in the 404 error. */
  predicate EndsAsChainSays(r: Got, final: Option<Response>, rest: seq<Response>, t: Fs, target: Path,
                            fname: string, name: string) {
    && r.rest == rest
    && (final.None? ==> r.fs == t && r.result == Err(Crashed))
    && (final.Some? && final.value.status == 404 ==> r.fs == t && r.result == Err(FailedDownload(fname)))
    && (final.Some? && final.value.status != 404 ==>
          if name in Present(t, target) then r.fs == t && r.result == Ok(name)
          else if !IsDir(t, target) then r.fs == t && r.result == Err(Crashed)
          else (r.fs == t[target + [name] := File(final.value.body)]
            && r.result == (if final.value.complete then Ok(name) else Err(StreamError))))
  }

  /** `hitFile` ends as the last response of its chain says, under the name
      of the final URL. */
  lemma {:induction false} HitOutcome(t: Fs, target: Path, url: string, fname: string, net: seq<Response>)
    requires Decodable(url, net)
    ensures var c := Follow(url, net);
      EndsAsChainSays(HitResult(t, target, url, fname, net), c.final, c.rest, t, target, fname,
                      UrlName(FinalUrl(url, net)).value)
    decreases |net|, 1
  {
    if net != [] && net[0].location.Some? && net[0].location.value != "" {
      HitOutcomeHop(t, target, url, fname, net);
    } else {
      var name := UrlName(url).value;
      assert HitResult(t, target, url, fname, net) == HitNamed(t, target, url, name, fname, net);
      HitNamedEnds(t, target, url, name, fname, net);
    }
  }

  /** The redirect case of HitOutcome. */
  lemma {:induction false} HitOutcomeHop(t: Fs, target: Path, url: string, fname: string, net: seq<Response>)
    requires net != [] && net[0].location.Some? && net[0].location.value != ""
    requires Decodable(url, net)
    ensures var c := Follow(url, net);
      EndsAsChainSays(HitResult(t, target, url, fname, net), c.final, c.rest, t, target, fname,
                      UrlName(FinalUrl(url, net)).value)
    decreases |net|, 0
  {
    var next := Resolve(url, net[0].location.value);
    HitStep(t, target, url, fname, net);
    HitOutcome(t, target, next, fname, net[1..]);
    var c, c' := Follow(url, net), Follow(next, net[1..]);
    assert c.final == c'.final && c.rest == c'.rest;
  }

  /** One hop of `hitFile`: a readable name and a truthy `location` lead on. */
  lemma HitStep(t: Fs, target: Path, url: string, fname: string, net: seq<Response>)
    requires net != [] && net[0].location.Some? && net[0].location.value != "" && UrlName(url).Some?
    ensures HitResult(t, target, url, fname, net) == HitResult(t, target, Resolve(url, net[0].location.value), fname, net[1..])
  {
    assert HitResult(t, target, url, fname, net) == HitNamed(t, target, url, UrlName(url).value, fname, net);
  }

  /** The last hop of a chain. */
  lemma HitNamedEnds(t: Fs, target: Path, url: string, name: string, fname: string, net: seq<Response>)
    requires net == [] || net[0].location.None? || net[0].location.value == ""
    ensures var c := Follow(url, net);
      EndsAsChainSays(HitNamed(t, target, url, name, fname, net), c.final, c.rest, t, target, fname, name)
  {
  }

  /** The name passed in matters only to the message of a 404: two calls
      that differ in it change the tree alike and succeed alike. */
  lemma {:induction false} HitFallbackOnlyInMessage(t: Fs, target: Path, url: string, f1: string, f2: string,
                                                   net: seq<Response>)
    ensures FallbackOnlyInMessage(HitResult(t, target, url, f1, net), HitResult(t, target, url, f2, net), f1, f2)
    decreases |net|
  {
    if UrlName(url).Some? {
      var name := UrlName(url).value;
      assert HitResult(t, target, url, f1, net) == HitNamed(t, target, url, name, f1, net);
      assert HitResult(t, target, url, f2, net) == HitNamed(t, target, url, name, f2, net);
      if net != [] && net[0].location.Some? && net[0].location.value != "" {
        var next := Resolve(url, net[0].location.value);
        assert HitNamed(t, target, url, name, f1, net) == HitResult(t, target, next, f1, net[1..]);
        assert HitNamed(t, target, url, name, f2, net) == HitResult(t, target, next, f2, net[1..]);
        HitFallbackOnlyInMessage(t, target, next, f1, f2, net[1..]);
      } else {
        HitNamedFallback(t, target, url, name, f1, f2, net);
      }
    }
  }

  /** Two ends of `hitFile` agree but for the name in a 404 error. */
  predicate FallbackOnlyInMessage(r1: Got, r2: Got, f1: string, f2: string) {
    && r1.fs == r2.fs && r1.rest == r2.rest
    && (r1.result == Err(FailedDownload(f1)) <==> r2.result == Err(FailedDownload(f2)))
    && (r1.result != Err(FailedDownload(f1)) ==> r1.result == r2.result)
  }

  lemma HitNamedFallback(t: Fs, target: Path, url: string, name: string, f1: string, f2: string, net: seq<Response>)
    requires net == [] || net[0].location.None? || net[0].location.value == ""
    ensures FallbackOnlyInMessage(HitNamed(t, target, url, name, f1, net), HitNamed(t, target, url, name, f2, net), f1, f2)
  {
  }

  /** `hitFile` on the disk: the name of the URL is decoded first. */
  method HitFile(disk: Disk, target: Path, url: string, fname: string, net: seq<Response>)
    returns (result: Result<string, JsError>, rest: seq<Response>)
    requires disk.Valid()
    modifies disk
    ensures disk.Valid() && Got(disk.fs, result, rest) == HitResult(old(disk.fs), target, url, fname, net)
    decreases |net|, 1
  {
    var name := UrlName(url);
    if name.None? {
      return Err(Crashed), net;
    }
    result, rest := HitNamedOnDisk(disk, target, url, name.value, fname, net);
  }

  /** The response handler of `hitFile`, with the decoded name: a redirect
      calls `hitFile` again, and otherwise the body is written. */
  method HitNamedOnDisk(disk: Disk, target: Path, url: string, name: string, fname: string, net: seq<Response>)
    returns (result: Result<string, JsError>, rest: seq<Response>)
    requires disk.Valid()
    modifies disk
    ensures disk.Valid() && Got(disk.fs, result, rest) == HitNamed(old(disk.fs), target, url, name, fname, net)
    decreases |net|, 0
  {
    if net == [] {
      return Err(Crashed), [];
    }
    var response := net[0];
    if response.location.Some? && response.location.value != "" {
      result, rest := HitFile(disk, target, Resolve(url, response.location.value), fname, net[1..]);
      return;
    }
    if response.status == 404 {
      return Err(FailedDownload(fname)), net[1..];
    }
    if name in Present(disk.fs, target) {
      return Ok(name), net[1..];
    }
    var path := target + [name];
    assert Parent(path) == target;
    ListingMember(disk.fs, target, name);
    var written := disk.WriteFile(path, response.body);
    if !written {
      return Err(Crashed), net[1..];
    }
    result := if response.complete then Ok(name) else Err(StreamError);
    rest := net[1..];
  }

  // ---------------------------------------------------------------------------
  // curseFile
  // ---------------------------------------------------------------------------

  /** `curseFile(projectId, fileId, vpath, cb)`: the lookup answers first (the
      id only shapes its request); an error there is handed on and nothing is
      downloaded; otherwise `hitFile` of the CurseForge URL, with
      `<fileId>.jar` as the name passed in. */
  function CurseFile(t: Fs, mods: Path, fileId: string, net: seq<Response>): (r: Got)
    ensures Suffix(r.rest, net)
    ensures Lookup(net).Err? ==> r == Got(t, Err(Lookup(net).error), if net == [] then [] else net[1..])
    ensures Lookup(net).Ok? ==>
      r == HitResult(t, mods, Py.CurseUrl(Lookup(net).value, fileId), fileId + ".jar", net[1..])
  {
    if net == [] then Got(t, Err(Crashed), [])
    else
      match ProjectName(net[0].location)
      case Err(e) => Got(t, Err(e), net[1..])
      case Ok(project) =>
        var r := HitResult(t, mods, Py.CurseUrl(project, fileId), fileId + ".jar", net[1..]);
        SuffixTrans(r.rest, net[1..], net);
        r
  }

  /** A CurseForge download answered directly: the JavaScript installer
      stores it as `download`, the Python one as `<fileId>.jar`. */
  lemma CurseDirectNamesDiffer(t: Fs, mods: Path, project: string, fileId: string, response: Response)
    requires IsDir(t, mods) && "download" !in Present(t, mods) && fileId + ".jar" !in Present(t, mods)
    requires response.location.None? && response.status != 404 && response.contentLength.Some? && response.complete
    ensures HitResult(t, mods, Py.CurseUrl(project, fileId), fileId + ".jar", [response]).result == Ok("download")
    ensures Py.CurseFile(t, mods, project, fileId, [response]).hit == Py.Saved(fileId + ".jar")
  {
    var url := Py.CurseUrl(project, fileId);
    CurseUrlReadsDownload(project, fileId);
    assert HitResult(t, mods, url, fileId + ".jar", [response])
        == HitNamed(t, mods, url, "download", fileId + ".jar", [response]);
    Py.CurseUrlName(project, fileId, fileId + ".jar");
    assert Made(t, mods) == t;
  }

  /** The CurseForge URL reads as `download` here too. */
  lemma CurseUrlReadsDownload(project: string, fileId: string)
    ensures UrlName(Py.CurseUrl(project, fileId)) == Some("download")
  {
    LastSegmentAfterSlash(Py.CurseProjects + project + "/files/" + fileId, "download");
    assert !HasMalformedEscape("download") && Unquote("download") == "download" by {
      UnquotePlainPrefix("download", "");
      assert "download" + "" == "download";
      PlainWellFormed("download");
    }
  }

  /** `curseFile` on the disk. */
  method CurseFileOnDisk(disk: Disk, mods: Path, fileId: string, net: seq<Response>)
    returns (result: Result<string, JsError>, rest: seq<Response>)
    requires disk.Valid()
    modifies disk
    ensures disk.Valid() && Got(disk.fs, result, rest) == CurseFile(old(disk.fs), mods, fileId, net)
  {
    if net == [] {
      return Err(Crashed), [];
    }
    var project := ProjectName(net[0].location);
    if project.Err? {
      return Err(project.error), net[1..];
    }
    result, rest := HitFile(disk, mods, Py.CurseUrl(project.value, fileId), fileId + ".jar", net[1..]);
  }

  // ---------------------------------------------------------------------------
  // downloadNext
  // ---------------------------------------------------------------------------

  /** A manifest value as string concatenation renders it: a missing one
      reads `undefined`. */
  function JsStr(o: Option<string>): (s: string)
    ensures o.Some? ==> s == o.value
    ensures o.None? ==> s == "undefined"
  {
    if o.None? then "undefined" else o.value
  }

  /** Where a run of downloads stopped: the tree, the error that ended it
      (None when every file came down), and the responses left. */
  datatype Downloaded = Downloaded(fs: Fs, error: Option<JsError>, rest: seq<Response>)

  /** `downloadNext` from the first of files on: the `curseFile` of each file
      in order, each starting from the tree and the responses the one before
      left; the first error is handed on and nothing after it is requested. */
  function DownloadFrom(t: Fs, mods: Path, files: seq<Py.FileRef>, net: seq<Response>): (r: Downloaded)
    ensures Suffix(r.rest, net)
    ensures files == [] ==> r == Downloaded(t, None, net)
    ensures files != [] && CurseFile(t, mods, JsStr(files[0].fileID), net).result.Err? ==>
      var g := CurseFile(t, mods, JsStr(files[0].fileID), net);
      r == Downloaded(g.fs, Some(g.result.error), g.rest)
    decreases |files|
  {
    if files == [] then
      SuffixRefl(net);
      Downloaded(t, None, net)
    else
      var g := CurseFile(t, mods, JsStr(files[0].fileID), net);
      if g.result.Err? then Downloaded(g.fs, Some(g.result.error), g.rest)
      else
        var r := DownloadFrom(g.fs, mods, files[1..], g.rest);
        SuffixTrans(r.rest, g.rest, net);
        r
  }

  /** Downloads run in index order: a list that fails ends the run there, a
      list that succeeds hands its tree and its remaining responses to the
      files after it. */
  lemma {:induction false} DownloadSplit(t: Fs, mods: Path, files: seq<Py.FileRef>, more: seq<Py.FileRef>,
                                         net: seq<Response>)
    ensures var r := DownloadFrom(t, mods, files, net);
      DownloadFrom(t, mods, files + more, net) == if r.error.Some? then r else DownloadFrom(r.fs, mods, more, r.rest)
    decreases |files|
  {
    if files == [] {
      assert files + more == more;
    } else {
      assert (files + more)[0] == files[0] && (files + more)[1..] == files[1..] + more;
      var g := CurseFile(t, mods, JsStr(files[0].fileID), net);
      if g.result.Ok? {
        DownloadSplit(g.fs, mods, files[1..], more, g.rest);
      }
    }
  }

  /** `downloadNext(index)` on the disk: fetches files[index] and, when that
      succeeds and it is not the last, goes on with index + 1. */
  method DownloadNext(disk: Disk, mods: Path, files: seq<Py.FileRef>, index: nat, net: seq<Response>)
    returns (error: Option<JsError>, rest: seq<Response>)
    requires disk.Valid() && index < |files|
    modifies disk
    ensures disk.Valid() && Downloaded(disk.fs, error, rest) == DownloadFrom(old(disk.fs), mods, files[index..], net)
    decreases |files| - index
  {
    var file := files[index];
    var result, after := CurseFileOnDisk(disk, mods, JsStr(file.fileID), net);
    if result.Err? {
      return Some(result.error), after;
    }
    assert files[index..][1..] == files[index + 1..];
    if index == |files| - 1 {
      return None, after;
    }
    error, rest := DownloadNext(disk, mods, files, index + 1, after);
  }

  // ---------------------------------------------------------------------------
  // modpackStep2
  // ---------------------------------------------------------------------------

  /** The tree and the callback value of one step of the installer. */
  datatype Step = Step(fs: Fs, result: Result<string, JsError>)

  const Success := "Modpack downloaded successfully."

  /** `modpackStep2` for the pack directory `pack` whose overrides are named
      ov: when the overrides exist, each of their entries is moved into
      `minecraft` as `patchDirs` moves them, and the overrides are then
      removed. Listing an overrides path that is a file, renaming into a
      `minecraft` that is not a directory, and listing a file of the
      overrides met by a directory throw; the model then keeps the tree the
      step started from. */
  function Step2(t: Fs, pack: Path, ov: string): (r: Step)
    ensures r.result.Ok? ==> r.result.value == Success && forall q {:trigger q in r.fs} | q in r.fs :: !(pack + [ov] <= q)
    ensures r.result.Err? ==> r == Step(t, Err(Crashed))
  {
    var o, mc := pack + [ov], pack + ["minecraft"];
    if o in t && t[o].File? then Step(t, Err(Crashed))
    else if o !in t then Step(Pruned(t, o), Ok(Success))
    else if IsDir(t, mc) then
      if NoDirReplaced(t, o, mc) then Step(Pruned(Patched(t, o, mc), o), Ok(Success)) else Step(t, Err(Crashed))
    else if Listing(t, o) == {} then Step(Pruned(t, o), Ok(Success))
    else Step(t, Err(Crashed))
  }

  /** Moving the overrides leaves what copying them (`copytree` of
      install_pack.py) and then removing them would leave. */
  lemma Step2IsPythonCopy(t: Fs, pack: Path, ov: string, counts: Py.Outcome, rest: seq<Response>)
    requires IsDir(t, pack + [ov]) && IsDir(t, pack + ["minecraft"])
    requires Py.Overrides(t, pack, Some(ov), counts, rest).outcome == counts && counts.Installed?
    ensures Step2(t, pack, ov) == Step(Pruned(Py.Overrides(t, pack, Some(ov), counts, rest).fs, pack + [ov]), Ok(Success))
  {
    var o, mc := pack + [ov], pack + ["minecraft"];
    assert Py.Minecraft(pack) == mc;
    SameKindsNoDirReplaced(t, o, mc);
    MoveIsCopy(t, o, mc);
  }

  /** `modpackStep2` on the disk; its loop over the overrides is the loop of
      `patchDirs` over `minecraft`. */
  method ModpackStep2(disk: Disk, pack: Path, ov: string) returns (result: Result<string, JsError>)
    requires disk.Valid() && ov != "minecraft"
    modifies disk
    ensures disk.Valid() && Step(disk.fs, result) == Step2(old(disk.fs), pack, ov)
  {
    var o, mc := pack + [ov], pack + ["minecraft"];
    if o in disk.fs {
      if disk.fs[o].File? {
        return Err(Crashed);
      }
      if IsDir(disk.fs, mc) {
        if !NoDirReplaced(disk.fs, o, mc) {
          return Err(Crashed);
        }
        SiblingsDisjoint(pack, ov, "minecraft");
        disk.PatchDirs(mc, o);
      } else if Listing(disk.fs, o) != {} {
        return Err(Crashed);
      }
    }
    disk.RmDir(o);
    result := Ok(Success);
  }

  // ---------------------------------------------------------------------------
  // modpackStep1
  // ---------------------------------------------------------------------------

  /** A name that stands for one path component. */
  predicate PlainName(n: string) {
    n != "" && n != "." && n != ".." && '/' !in n
  }

  /** `manifest.name || zipname`: the manifest's name unless it is missing or
      empty. */
  function InstallName(m: Py.Manifest, zipname: string): (n: string)
    ensures m.name.Some? && m.name.value != "" ==> n == m.name.value
    ensures m.name.None? || m.name.value == "" ==> n == zipname
  {
    if m.name.Some? && m.name.value != "" then m.name.value else zipname
  }

  /** The directory below an install that its mods are downloaded to, which
      a new version evidently means to clear. */
  const ModsBelow: seq<string> := ["minecraft", "mods"]

  /** What install_pack.js:239 clears instead: `mods` right below the
      install, where no mod is ever put. */
  const ModsBelowAsWritten: seq<string> := ["mods"]

  /** An entry below the pack, when the pack lies apart from the install, has
      its counterpart under the install outside the pack, and the overlay and
      the move of the pack put the entry's node there. */
  lemma LandsAt(u: Fs, pack: Path, inst: Path, q: Path)
    requires Disjoint(inst, pack) && q in u && pack <= q
    ensures var d := inst + q[|pack|..];
      && !(pack <= d)
      && d in Overlay(u, pack, inst) && Overlay(u, pack, inst)[d] == u[q]
      && d in Patched(u, pack, inst) && Patched(u, pack, inst)[d] == u[q]
  {
    var x := q[|pack|..];
    var d := inst + x;
    assert pack + x == q;
    assert d[|inst|..] == x;
    PrefixOfJoin(pack, inst, x);
    assert Covered(u, pack, inst, d);
  }

  lemma LandsInInstall(u: Fs, pack: Path, inst: Path)
    ensures Disjoint(inst, pack) ==> forall q | q in u && pack <= q ::
      var d := inst + q[|pack|..];
      && !(pack <= d)
      && d in Overlay(u, pack, inst) && Overlay(u, pack, inst)[d] == u[q]
      && d in Patched(u, pack, inst) && Patched(u, pack, inst)[d] == u[q]
  {
    if Disjoint(inst, pack) {
      forall q | q in u && pack <= q
        ensures var d := inst + q[|pack|..];
          && !(pack <= d)
          && d in Overlay(u, pack, inst) && Overlay(u, pack, inst)[d] == u[q]
          && d in Patched(u, pack, inst) && Patched(u, pack, inst)[d] == u[q]
      {
        LandsAt(u, pack, inst, q);
      }
    }
  }

  /** Clearing a path inside the install leaves the pack alone. */
  lemma PrunedKeepsPack(t: Fs, inst: Path, pack: Path, removed: Path)
    ensures Disjoint(inst, pack) && inst <= removed ==>
      forall q | q in t && pack <= q :: q in Pruned(t, removed) && Pruned(t, removed)[q] == t[q]
  {
    if Disjoint(inst, pack) && inst <= removed {
      forall q | q in t && pack <= q ensures !(removed <= q) {
        assert pack + q[|pack|..] == q;
        PrefixOfJoin(inst, pack, q[|pack|..]);
      }
    }
  }

  /** An existing install `inst` brought up to the extracted pack: on a new
      version `removed` goes first (`rmdir`), then the pack is moved into the
      install (`patchDirs`) and removed (`rmdir`). `rmdir` of a file, and a
      merge that lists a file of the pack met by a directory, throw (None). */
  function Update(t: Fs, inst: Path, pack: Path, newVersion: bool, removed: Path): (r: Option<Fs>)
    requires removed != []
    ensures r.Some? ==> forall q {:trigger q in r.value} | q in r.value :: !(pack <= q)
    ensures r.Some? && Disjoint(inst, pack) && inst <= removed ==>
      forall q | q in t && pack <= q :: inst + q[|pack|..] in r.value && r.value[inst + q[|pack|..]] == t[q]
  {
    if newVersion && removed in t && t[removed].File? then None
    else
      var u := if newVersion then Pruned(t, removed) else t;
      PrunedKeepsPack(t, inst, pack, removed);
      LandsInInstall(u, pack, inst);
      if NoDirReplaced(u, pack, inst) then Some(Pruned(Patched(u, pack, inst), pack)) else None
  }

  /** With the directory cleared that the installer downloads to, every mod
      left in an updated install comes from the new pack. */
  lemma UpdateRenewsMods(t: Fs, inst: Path, pack: Path, q: Path)
    requires var r := Update(t, inst, pack, true, inst + ModsBelow); r.Some? && q in r.value
    requires inst + ModsBelow < q
    ensures pack + q[|inst|..] in t
  {
    var u := Pruned(t, inst + ModsBelow);
    assert q in Patched(u, pack, inst);
    assert q !in u;
    assert Covered(u, pack, inst, q);
  }

  /** As written, a mod of the old version under `minecraft/mods` survives
      an update to a new version. */
  lemma StaleModKept(t: Fs, inst: Path, pack: Path, jar: string)
    requires Disjoint(inst, pack) && inst + ModsBelow + [jar] in t
    requires Update(t, inst, pack, true, inst + ModsBelowAsWritten).Some?
    ensures inst + ModsBelow + [jar] in Update(t, inst, pack, true, inst + ModsBelowAsWritten).value
  {
    var q, removed := inst + ModsBelow + [jar], inst + ModsBelowAsWritten;
    assert q == inst + ["minecraft", "mods", jar];
    assert q[|inst|] == "minecraft" && removed[|inst|] == "mods";
    assert !(removed <= q);
    DisjointJoin(inst, pack, ["minecraft", "mods", jar]);
    var u := Pruned(t, removed);
    assert q in u;
    assert q in Patched(u, pack, inst);
  }

  /** Where the extracted pack ends up before the downloads: it stays when
      its name is the zip name; it is moved into an existing install of that
      name (`patchDirs`, after clearing `below` on a new version) or renamed
      to it otherwise. Reading the existing manifest, renaming a missing
      directory and the failures of Update throw (None). */
  datatype Placed = Placed(fs: Fs, dir: Path)

  function Place(t: Fs, home: Path, zipname: string, m: Py.Manifest, existing: Option<Py.Manifest>,
                 below: seq<string>): (r: Option<Placed>)
    requires below != []
    ensures r.Some? ==> r.value.dir == home + [InstallName(m, zipname)]
    ensures r.Some? && InstallName(m, zipname) != zipname ==>
      forall q {:trigger q in r.value.fs} | q in r.value.fs :: !(home + [zipname] <= q)
    ensures r.Some? && InstallName(m, zipname) == zipname ==> r.value.fs == t
    ensures r.Some? && InstallName(m, zipname) != zipname ==>
      var pack, fs := home + [zipname], r.value.fs;
      forall q | q in t && pack <= q :: r.value.dir + q[|pack|..] in fs && fs[r.value.dir + q[|pack|..]] == t[q]
  {
    var name, pack := InstallName(m, zipname), home + [zipname];
    if name == zipname then Some(Placed(t, pack))
    else
      var inst := home + [name];
      SiblingsDisjoint(home, zipname, name);
      assert inst <= inst + below;
      LandsInInstall(t, pack, inst);
      if inst in t then
        if existing.None? || !IsDir(t, inst) || !IsDir(t, pack) then None
        else
          match Update(t, inst, pack, existing.value.version != m.version, inst + below)
          case None => None
          case Some(u) => Some(Placed(u, inst))
      else if pack !in t then None
      else Some(Placed(Pruned(Overlay(t, pack, inst), pack), inst))
  }

  /** Placing the pack changes nothing outside the pack and the install: no
      entry there is added, removed or changed. */
  lemma PlaceFrame(t: Fs, home: Path, zipname: string, m: Py.Manifest, existing: Option<Py.Manifest>,
                   below: seq<string>)
    requires below != [] && Place(t, home, zipname, m, existing, below).Some?
    ensures var p, pack, inst := Place(t, home, zipname, m, existing, below).value, home + [zipname], home + [InstallName(m, zipname)];
      forall q | !(pack <= q) && !(inst <= q) :: (q in p.fs <==> q in t) && (q in t ==> p.fs[q] == t[q])
  {
    var name, pack := InstallName(m, zipname), home + [zipname];
    var inst := home + [name];
    forall q | q in t && !(pack <= q) && !(inst <= q)
      ensures var p := Place(t, home, zipname, m, existing, below).value; q in p.fs && p.fs[q] == t[q]
    {
      if name != zipname {
        assert !Covered(t, pack, inst, q);
        if inst in t {
          var removed := inst + below;
          assert inst <= removed;
          var u := if existing.value.version != m.version then Pruned(t, removed) else t;
          assert q in u && u[q] == t[q];
          assert !Covered(u, pack, inst, q);
        }
      }
    }
  }

  /** The callbacks a run makes, in order (the last one ends it), the tree it
      leaves, and the responses left. */
  datatype JsRun = JsRun(fs: Fs, calls: seq<Result<string, JsError>>, rest: seq<Response>)

  /** The callback `makeDir(p)` makes: none when p exists or can be made. */
  function MkDirCalls(t: Fs, p: Path): (c: seq<Result<string, JsError>>)
    requires p != []
    ensures c == [] <==> p in DirMade(t, p)
  {
    if p in t || IsDir(t, Parent(p)) then [] else [Err(MakeDirFailed)]
  }

  /** `makeDir` of `minecraft` and of `minecraft/mods` in the pack directory;
      a failure is reported and the run goes on. */
  datatype Prepared = Prepared(fs: Fs, calls: seq<Result<string, JsError>>)

  function Prepare(t: Fs, dir: Path): (r: Prepared)
    ensures |r.calls| <= 2 && forall i | 0 <= i < |r.calls| :: r.calls[i] == Err(MakeDirFailed)
    ensures IsDir(t, dir) && dir + ["minecraft"] !in t && dir + ["minecraft", "mods"] !in t ==>
      IsDir(r.fs, dir + ["minecraft", "mods"]) && r.calls == []
  {
    var mc := dir + ["minecraft"];
    var mods := mc + ["mods"];
    var u := DirMade(t, mc);
    assert Parent(mc) == dir && Parent(mods) == mc && mods == dir + ["minecraft", "mods"];
    Prepared(DirMade(u, mods), MkDirCalls(t, mc) + MkDirCalls(u, mods))
  }

  /** `downloadNext(0)` and what follows it: `files[0]` of an empty list is
      undefined and reading its `projectID` throws; the first failed download
      ends the run with its error; after the last file `modpackStep2` runs. */
  function Fetch(s: Prepared, pack: Path, files: seq<Py.FileRef>, ov: string, net: seq<Response>): (r: JsRun)
    ensures Suffix(r.rest, net) && |r.calls| > 0 && r.calls[..|r.calls| - 1] == s.calls
    ensures r.calls[|r.calls| - 1].Ok? ==>
      files != [] && DownloadFrom(s.fs, pack + ["minecraft", "mods"], files, net).error.None?
  {
    if files == [] then
      SuffixRefl(net);
      JsRun(s.fs, s.calls + [Err(Crashed)], net)
    else
      var d := DownloadFrom(s.fs, pack + ["minecraft", "mods"], files, net);
      if d.error.Some? then JsRun(d.fs, s.calls + [Err(d.error.value)], d.rest)
      else
        var e := Step2(d.fs, pack, ov);
        JsRun(e.fs, s.calls + [e.result], d.rest)
  }

  /** The first failed download ends the run, whatever files come after it. */
  lemma FetchAborts(s: Prepared, pack: Path, files: seq<Py.FileRef>, more: seq<Py.FileRef>, ov: string,
                    net: seq<Response>)
    requires files != [] && DownloadFrom(s.fs, pack + ["minecraft", "mods"], files, net).error.Some?
    ensures Fetch(s, pack, files + more, ov, net) == Fetch(s, pack, files, ov, net)
  {
    DownloadSplit(s.fs, pack + ["minecraft", "mods"], files, more, net);
  }

  /** The name of the overrides: `manifest.overrides`, or `overrides`. */
  function OverridesName(m: Py.Manifest): (o: string)
    requires Py.OverridesNamed(m)
    ensures o != "minecraft" && PlainName(o)
    ensures m.overrides.Some? ==> o == m.overrides.value
    ensures m.overrides.None? ==> o == "overrides"
  {
    if m.overrides.Some? then m.overrides.value else "overrides"
  }

  /** The names a run of `modpackStep1` works with stand for single path
      components. */
  predicate NamesPlain(zipname: string, manifest: Option<Py.Manifest>) {
    && PlainName(zipname)
    && (manifest.Some? ==> Py.OverridesNamed(manifest.value) && PlainName(InstallName(manifest.value, zipname)))
  }

  /** `modpackStep1(home/zipname, zipname, cb)`, with the manifest the pack
      directory holds (None when it cannot be loaded) and the manifest of an
      existing install of the same name. A new version clears `mods` right
      below the install, as written. */
  function ModpackRun(t: Fs, home: Path, zipname: string, manifest: Option<Py.Manifest>,
                      existing: Option<Py.Manifest>, net: seq<Response>): (r: JsRun)
    requires NamesPlain(zipname, manifest)
    ensures Suffix(r.rest, net) && |r.calls| > 0
    ensures manifest.None? ==> r == JsRun(t, [Err(NoManifest)], net)
    ensures manifest.Some? && manifest.value.files.None? ==>
      r.rest == net && (r.calls == [Err(NoFilesInManifest)] || r.calls == [Err(Crashed)])
    ensures r.calls[|r.calls| - 1].Ok? ==> manifest.Some? && manifest.value.files.Some? && manifest.value.files.value != []
  {
    SuffixRefl(net);
    if manifest.None? then JsRun(t, [Err(NoManifest)], net)
    else
      var m := manifest.value;
      match Place(t, home, zipname, m, existing, ModsBelowAsWritten)
      case None => JsRun(t, [Err(Crashed)], net)
      case Some(p) =>
        if m.files.None? then JsRun(p.fs, [Err(NoFilesInManifest)], net)
        else Fetch(Prepare(p.fs, p.dir), p.dir, m.files.value, OverridesName(m), net)
  }

  /** Update on the disk. */
  method UpdateOnDisk(disk: Disk, inst: Path, pack: Path, newVersion: bool, removed: Path) returns (ok: bool)
    requires disk.Valid() && IsDir(disk.fs, inst) && IsDir(disk.fs, pack) && Disjoint(pack, inst)
    requires inst < removed && !(removed <= pack)
    modifies disk
    ensures disk.Valid()
    ensures ok ==> Update(old(disk.fs), inst, pack, newVersion, removed) == Some(disk.fs)
    ensures !ok ==> Update(old(disk.fs), inst, pack, newVersion, removed).None? && disk.fs == old(disk.fs)
  {
    if newVersion && removed in disk.fs && disk.fs[removed].File? {
      return false;
    }
    var u := if newVersion then Pruned(disk.fs, removed) else disk.fs;
    if !NoDirReplaced(u, pack, inst) {
      return false;
    }
    if newVersion {
      disk.RmDir(removed);
    }
    disk.PatchDirs(inst, pack);
    disk.RmDir(pack);
    ok := true;
  }

  /** Place on the disk; dir is the directory the run goes on in. */
  method PlaceOnDisk(disk: Disk, home: Path, zipname: string, m: Py.Manifest, existing: Option<Py.Manifest>,
                     below: seq<string>) returns (dir: Option<Path>)
    requires disk.Valid() && below != [] && PlainName(zipname) && PlainName(InstallName(m, zipname))
    modifies disk
    ensures disk.Valid()
    ensures dir.Some? ==> Place(old(disk.fs), home, zipname, m, existing, below) == Some(Placed(disk.fs, dir.value))
    ensures dir.None? ==> Place(old(disk.fs), home, zipname, m, existing, below).None? && disk.fs == old(disk.fs)
  {
    var name, pack := InstallName(m, zipname), home + [zipname];
    if name == zipname {
      return Some(pack);
    }
    var inst := home + [name];
    SiblingsDisjoint(home, zipname, name);
    if inst in disk.fs {
      if existing.None? || !IsDir(disk.fs, inst) || !IsDir(disk.fs, pack) {
        return None;
      }
      var ok := UpdateOnDisk(disk, inst, pack, existing.value.version != m.version, inst + below);
      if !ok {
        return None;
      }
      return Some(inst);
    }
    if pack !in disk.fs {
      return None;
    }
    assert Parent(pack) == home && Parent(inst) == home;
    disk.Rename(pack, inst);
    dir := Some(inst);
  }

  /** Prepare on the disk. */
  method PrepareOnDisk(disk: Disk, dir: Path) returns (calls: seq<Result<string, JsError>>)
    requires disk.Valid()
    modifies disk
    ensures disk.Valid() && Prepared(disk.fs, calls) == Prepare(old(disk.fs), dir)
  {
    var mc := dir + ["minecraft"];
    var mods := mc + ["mods"];
    assert Parent(mods) == mc;
    var made := disk.MakeDir(mc);
    calls := if made then [] else [Err(MakeDirFailed)];
    made := disk.MakeDir(mods);
    calls := calls + if made then [] else [Err(MakeDirFailed)];
  }

  /** Fetch on the disk. */
  method FetchOnDisk(disk: Disk, pack: Path, files: seq<Py.FileRef>, ov: string,
                     before: seq<Result<string, JsError>>, net: seq<Response>)
    returns (calls: seq<Result<string, JsError>>, rest: seq<Response>)
    requires disk.Valid() && ov != "minecraft"
    modifies disk
    ensures disk.Valid() && JsRun(disk.fs, calls, rest) == Fetch(Prepared(old(disk.fs), before), pack, files, ov, net)
  {
    if files == [] {
      return before + [Err(Crashed)], net;
    }
    var error;
    error, rest := DownloadNext(disk, pack + ["minecraft", "mods"], files, 0, net);
    assert files[0..] == files;
    if error.Some? {
      return before + [Err(error.value)], rest;
    }
    var result := ModpackStep2(disk, pack, ov);
    calls := before + [result];
  }

  /** `modpackStep1` on the disk. */
  method ModpackStep1(disk: Disk, home: Path, zipname: string, manifest: Option<Py.Manifest>,
                      existing: Option<Py.Manifest>, net: seq<Response>)
    returns (calls: seq<Result<string, JsError>>, rest: seq<Response>)
    requires disk.Valid() && NamesPlain(zipname, manifest)
    modifies disk
    ensures disk.Valid() && JsRun(disk.fs, calls, rest) == ModpackRun(old(disk.fs), home, zipname, manifest, existing, net)
  {
    if manifest.None? {
      return [Err(NoManifest)], net;
    }
    var m := manifest.value;
    var dir := PlaceOnDisk(disk, home, zipname, m, existing, ModsBelowAsWritten);
    if dir.None? {
      return [Err(Crashed)], net;
    }
    if m.files.None? {
      return [Err(NoFilesInManifest)], net;
    }
    var before := PrepareOnDisk(disk, dir.value);
    calls, rest := FetchOnDisk(disk, dir.value, m.files.value, OverridesName(m), before, net);
  }

  // ---------------------------------------------------------------------------
  // downloadModpackFile
  // ---------------------------------------------------------------------------

  /** The pack name taken from the name `hitFile` stored the archive under:
      a name without `.zip` is rejected, otherwise its first `.zip` is
      removed. */
  function PackDirName(filename: string): (r: Result<string, JsError>)
    ensures r.Err? <==> forall i: nat :: !OccursAt(filename, ".zip", i)
    ensures r.Err? ==> r.error == UnsupportedArchive
    ensures r.Ok? ==> |r.value| == |filename| - 4 && r.value == RemoveFirst(filename, ".zip")
  {
    var i := Find(filename, ".zip");
    if i >= 0 then assert OccursAt(filename, ".zip", i); Ok(RemoveFirst(filename, ".zip"))
    else
      assert forall j: nat :: !OccursAt(filename, ".zip", j) by {
        forall j: nat ensures !OccursAt(filename, ".zip", j) {
          if OccursAt(filename, ".zip", j) { FindOccurrence(filename, ".zip", j); }
        }
      }
      Err(UnsupportedArchive)
  }

  /** An archive `<stem>.zip` whose only `.zip` is the last gives stem, as
      it does in install_pack.py. */
  lemma PackDirNameOfArchive(stem: string)
    requires Find(stem + ".zip", ".zip") == |stem|
    ensures PackDirName(stem + ".zip") == Ok(stem)
    ensures Py.PackName(Py.Saved(stem + ".zip")) == Ok(stem)
  {
    var s := stem + ".zip";
    assert s[..|stem|] == stem && s[|stem| + 4..] == "";
    Py.PackNameOfArchive(stem);
  }

  /** Only the first `.zip` goes here; install_pack.py removes all of them. */
  lemma PackDirNameDiffersFromPython()
    ensures PackDirName("a.zip.zip") == Ok("a.zip")
    ensures Py.PackName(Py.Saved("a.zip.zip")) == Ok("a")
  {
    var s := "a.zip.zip";
    assert OccursAt(s, ".zip", 1);
    assert s[0..4][0] == 'a';
    assert Find(s, ".zip") == 1;
    assert s[..1] + s[5..] == "a.zip";
    Py.PackNameEveryZip();
  }
}
