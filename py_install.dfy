/**
  install_pack.py: the names it reads off URLs, the redirect chain of
  `hit_file`, the download loop of `modpack_step` with its counters, the merge
  of the overrides, and the routing of the command-line argument.
 */
module PyInstall {
  import opened Text
  import opened Tree
  import opened Http

  // ---------------------------------------------------------------------------
  // Names read off URLs
  // ---------------------------------------------------------------------------

  /** `name_url`: the last `/`-segment of a URL, percent-decoded. */
  function NameUrl(url: string): (r: string)
    ensures '%' !in url ==> r == LastSegment(url) && '/' !in r
    ensures |r| <= |LastSegment(url)|
  {
    if '%' !in url then LastSegmentLacks(url, '%'); Unquote(LastSegment(url))
    else Unquote(LastSegment(url))
  }

  /** The name of a URL ending in an escaped segment is that segment's text. */
  lemma NameUrlRoundTrip(prefix: string, name: string)
    ensures NameUrl(prefix + "/" + EscapeSegment(name)) == name
  {
    LastSegmentAfterSlash(prefix, EscapeSegment(name));
    UnquoteEscapeSegment(name);
  }

  /** A URL ending in '/' and a plain segment is named by that segment. */
  lemma NameUrlAfterSlash(prefix: string, seg: string)
    requires '/' !in seg && '%' !in seg
    ensures NameUrl(prefix + "/" + seg) == seg
  {
    LastSegmentAfterSlash(prefix, seg);
  }

  /** A string with neither '/' nor '%' is its own name. */
  lemma NameUrlWhole(s: string)
    requires '/' !in s && '%' !in s
    ensures NameUrl(s) == s
  {
    LastSegmentOfSegment(s);
  }

  /** `project_by_id`, given the `location` header of the lookup response:
      the name of the location with one leading `digits-` removed, decoded
      first and stripped afterwards. */
  function ProjectById(location: Option<string>): (r: Option<string>)
    ensures r.None? <==> location.None?
  {
    match location
    case None => None
    case Some(loc) => Some(StripIdPrefix(NameUrl(loc)))
  }

  /** A location `.../<id>-<escaped slug>` gives back the slug. */
  lemma ProjectByIdSlug(base: string, id: nat, slug: string)
    ensures ProjectById(Some(base + "/" + Decimal(id) + "-" + EscapeSegment(slug))) == Some(slug)
  {
    var head := Decimal(id) + "-";
    var seg := head + EscapeSegment(slug);
    DigitsAreLiteral(Decimal(id));
    assert '/' !in head && '%' !in head;
    assert base + "/" + Decimal(id) + "-" + EscapeSegment(slug) == base + "/" + seg;
    LastSegmentAfterSlash(base, seg);
    UnquotePlainPrefix(head, EscapeSegment(slug));
    UnquoteEscapeSegment(slug);
    StripDecimalPrefix(id, slug);
  }

  /** The name `hit_file` settles on at one URL: the URL's own name, unless it
      is the uninformative `download`, in which case the name handed in. */
  function ChosenName(url: string, fallback: string): string {
    var n := NameUrl(url);
    if n == "download" then fallback else n
  }

  // ---------------------------------------------------------------------------
  // The redirect chain
  // ---------------------------------------------------------------------------

  /** The requests one download makes: the URLs asked for in order, the
      response that ended the chain (None when the network failed), and the
      responses left. */
  datatype Chain = Chain(urls: seq<string>, final: Option<Response>, rest: seq<Response>)

  /** Following `location` headers from url, whatever their status. */
  function Follow(url: string, net: seq<Response>): (c: Chain)
    ensures |c.urls| >= 1 && c.urls[0] == url && Suffix(c.rest, net)
    ensures c.final.Some? ==> c.final.value.location.None? && |c.rest| < |net|
    decreases |net|
  {
    if net == [] then Chain([url], None, [])
    else if net[0].location.Some? then
      var c := Follow(Resolve(url, net[0].location.value), net[1..]);
      SuffixTrans(c.rest, net[1..], net);
      Chain([url] + c.urls, c.final, c.rest)
    else Chain([url], Some(net[0]), net[1..])
  }

  /** The name of the latest URL of a chain whose name is not `download`, or
      the fallback when there is none; read from the end of the chain. */
  function LastNamed(urls: seq<string>, fallback: string): string
    decreases |urls|
  {
    if urls == [] then fallback
    else if NameUrl(urls[|urls| - 1]) != "download" then NameUrl(urls[|urls| - 1])
    else LastNamed(urls[..|urls| - 1], fallback)
  }

  /** Choosing at the first URL and handing the choice on is the same as
      choosing from the end. */
  lemma {:induction false} LastNamedCons(u: string, us: seq<string>, fallback: string)
    ensures LastNamed([u] + us, fallback) == LastNamed(us, ChosenName(u, fallback))
    decreases |us|
  {
    var v := [u] + us;
    if us == [] {
      assert v[..|v| - 1] == [];
    } else {
      assert v[|v| - 1] == us[|us| - 1];
      assert v[..|v| - 1] == [u] + us[..|us| - 1];
      LastNamedCons(u, us[..|us| - 1], fallback);
    }
  }

  predicate AllNamedDownload(urls: seq<string>) {
    forall i | 0 <= i < |urls| :: NameUrl(urls[i]) == "download"
  }

  /** A chain whose every URL is named `download` keeps the fallback. */
  lemma {:induction false} LastNamedAllDownload(urls: seq<string>, fallback: string)
    requires AllNamedDownload(urls)
    ensures LastNamed(urls, fallback) == fallback
    decreases |urls|
  {
    if urls != [] {
      LastNamedAllDownload(urls[..|urls| - 1], fallback);
    }
  }

  // ---------------------------------------------------------------------------
  // hit_file
  // ---------------------------------------------------------------------------

  /** The exceptions install_pack.py can raise. */
  datatype PyError =
    | KeyMissing(key: string)  // a required key of manifest.json is absent
    | NoFilesDefined           // manifest.json has no `files`
    | NotADirectory            // `os.makedirs` met a file on the way
    | ConnectionFailed         // a request got no response
    | MissingLength            // the final response has no usable `content-length`
    | OpenFailed               // the target file could not be opened for writing
    | StreamBroken             // the body stopped before its end
    | OverridesMissing         // the overrides directory cannot be listed
    | KindClash                // the overrides meet an entry of the other kind
    | DownloadFailed           // the modpack archive was not saved
    | NoUrlGiven               // no command-line argument

  /** What `hit_file` ends in: the saved name, None, or an exception. */
  datatype Hit = Saved(name: string) | Skipped | Raised(error: PyError)

  datatype Fetched = Fetched(fs: Fs, hit: Hit, rest: seq<Response>)

  /** `hit_file(url, target, file_name)` on tree t, answered by net: make
      target, choose the name, follow a `location` (with the chosen name as the
      new fallback), then a 404 skips, a missing `content-length` raises, an
      existing file skips, and otherwise the body is written. A broken stream
      leaves what has arrived in the file. */
  function HitResult(t: Fs, target: Path, url: string, fileName: string, net: seq<Response>): (r: Fetched)
    ensures Suffix(r.rest, net)
    decreases |net|
  {
    if !Makeable(t, target) then Fetched(t, Raised(NotADirectory), net)
    else
      var u := Made(t, target);
      var name := ChosenName(url, fileName);
      if net == [] then Fetched(u, Raised(ConnectionFailed), [])
      else
        var response := net[0];
        SuffixTail(net);
        if response.location.Some? then
          var r := HitResult(u, target, Resolve(url, response.location.value), name, net[1..]);
          SuffixTrans(r.rest, net[1..], net);
          r
        else if response.status == 404 then Fetched(u, Skipped, net[1..])
        else if response.contentLength.None? then Fetched(u, Raised(MissingLength), net[1..])
        else if name in Present(u, target) then Fetched(u, Skipped, net[1..])
        else if !IsDir(u, target) then Fetched(u, Raised(OpenFailed), net[1..])
        else
          Fetched(u[target + [name] := File(response.body)],
                  if response.complete then Saved(name) else Raised(StreamBroken),
                  net[1..])
  }

  /** How a download ends, given the chain c it followed and the tree u once
      target is made: by the last response of the chain, in the order 404,
      `content-length`, existing file, write, with the name the chain chose. */
  predicate EndsAsChainSays(r: Fetched, c: Chain, u: Fs, target: Path, name: string) {
    && r.rest == c.rest
    && (c.final.None? ==> r.fs == u && r.hit == Raised(ConnectionFailed))
    && (c.final.Some? && c.final.value.status == 404 ==> r.fs == u && r.hit == Skipped)
    && (c.final.Some? && c.final.value.status != 404 && c.final.value.contentLength.None? ==>
          r.fs == u && r.hit == Raised(MissingLength))
    && (c.final.Some? && c.final.value.status != 404 && c.final.value.contentLength.Some? ==>
          if name in Present(u, target) then r.fs == u && r.hit == Skipped
          else if !IsDir(u, target) then r.fs == u && r.hit == Raised(OpenFailed)
          else (r.fs == u[target + [name] := File(c.final.value.body)]
            && r.hit == (if c.final.value.complete then Saved(name) else Raised(StreamBroken))))
  }

  /** `hit_file` ends as the last response of its redirect chain says, under
      the latest non-`download` name along the chain. */
  lemma {:induction false} HitOutcome(t: Fs, target: Path, url: string, fallback: string, net: seq<Response>)
    requires Makeable(t, target)
    ensures EndsAsChainSays(HitResult(t, target, url, fallback, net), Follow(url, net), Made(t, target), target,
                            LastNamed(Follow(url, net).urls, fallback))
    decreases |net|, 1
  {
    if net != [] && net[0].location.Some? {
      HitOutcomeHop(t, target, url, fallback, net);
    } else {
      HitOutcomeEnd(t, target, url, fallback, net);
    }
  }

  /** HitOutcome for the last response: the chain is the URL alone. */
  lemma HitOutcomeEnd(t: Fs, target: Path, url: string, fallback: string, net: seq<Response>)
    requires Makeable(t, target) && (net == [] || net[0].location.None?)
    ensures EndsAsChainSays(HitResult(t, target, url, fallback, net), Follow(url, net), Made(t, target), target,
                            LastNamed(Follow(url, net).urls, fallback))
  {
    var u, h := Made(t, target), HitResult(t, target, url, fallback, net);
    var name := ChosenName(url, fallback);
    assert [url][..0] == [];
    assert LastNamed([url], fallback) == name;
    if net == [] {
      assert Follow(url, net) == Chain([url], None, []);
      assert h == Fetched(u, Raised(ConnectionFailed), []);
    } else {
      assert Follow(url, net) == Chain([url], Some(net[0]), net[1..]);
      var response := net[0];
      if response.status == 404 {
        assert h == Fetched(u, Skipped, net[1..]);
      } else if response.contentLength.None? {
        assert h == Fetched(u, Raised(MissingLength), net[1..]);
      } else if name in Present(u, target) {
        assert h == Fetched(u, Skipped, net[1..]);
      } else if !IsDir(u, target) {
        assert h == Fetched(u, Raised(OpenFailed), net[1..]);
      } else {
        assert h == Fetched(u[target + [name] := File(response.body)],
                            if response.complete then Saved(name) else Raised(StreamBroken), net[1..]);
      }
    }
  }

  /** HitOutcome for a redirect: the rest of the chain decides. */
  lemma {:induction false} HitOutcomeHop(t: Fs, target: Path, url: string, fallback: string, net: seq<Response>)
    requires Makeable(t, target) && net != [] && net[0].location.Some?
    ensures EndsAsChainSays(HitResult(t, target, url, fallback, net), Follow(url, net), Made(t, target), target,
                            LastNamed(Follow(url, net).urls, fallback))
    decreases |net|, 0
  {
    var u := Made(t, target);
    var next, name := Resolve(url, net[0].location.value), ChosenName(url, fallback);
    MadeEntries(t, target);
    HitOutcome(u, target, next, name, net[1..]);
    var c, c' := Follow(url, net), Follow(next, net[1..]);
    LastNamedCons(url, c'.urls, fallback);
    assert HitResult(t, target, url, fallback, net) == HitResult(u, target, next, name, net[1..]);
    assert c == Chain([url] + c'.urls, c'.final, c'.rest);
    assert Made(u, target) == u;
  }

  /** A saved file is named after the latest non-`download` URL of the chain,
      and never by the empty name. */
  lemma HitSavedName(t: Fs, target: Path, url: string, fallback: string, net: seq<Response>)
    ensures var r := HitResult(t, target, url, fallback, net);
      r.hit.Saved? ==> r.hit.name == LastNamed(Follow(url, net).urls, fallback) && r.hit.name != ""
  {
    var r := HitResult(t, target, url, fallback, net);
    if Makeable(t, target) && r.hit.Saved? {
      var c, u := Follow(url, net), Made(t, target);
      HitOutcome(t, target, url, fallback, net);
      assert c.final.Some? && c.final.value.status != 404 && c.final.value.contentLength.Some?;
      assert IsDir(u, target) && r.hit.name !in Present(u, target);
      assert "" in Present(u, target);
    }
  }

  /** Going from t to g creates missing directories on the way to target and
      otherwise changes at most entries directly inside target. */
  ghost predicate ChangesOnlyAt(t: Fs, g: Fs, target: Path) {
    && t.Keys <= g.Keys
    && forall q | q in g && !(q in t && g[q] == t[q]) ::
         (q !in t && q <= target && g[q] == Dir) || (target < q && |q| == |target| + 1)
  }

  lemma ChangesOnlyAtTrans(t: Fs, u: Fs, g: Fs, target: Path)
    requires ChangesOnlyAt(t, u, target) && ChangesOnlyAt(u, g, target)
    ensures ChangesOnlyAt(t, g, target)
  {
  }

  /** Every `location` of the responses decodes to a name without '/'. */
  predicate SlashFreeLocations(net: seq<Response>) {
    forall i | 0 <= i < |net| && net[i].location.Some? :: '/' !in NameUrl(net[i].location.value)
  }

  lemma SlashFreeSuffix(r: seq<Response>, s: seq<Response>)
    requires Suffix(r, s) && SlashFreeLocations(s)
    ensures SlashFreeLocations(r)
  {
    forall i | 0 <= i < |r| && r[i].location.Some? ensures '/' !in NameUrl(r[i].location.value) {
      assert r[i] == s[|s| - |r| + i];
    }
  }

  /** `hit_file` creates target's missing directories and otherwise changes at
      most one entry, directly inside target, as long as no name along the
      chain holds a '/' (`os.path.join` would take such a name as a path). */
  lemma {:induction false} HitFrame(t: Fs, target: Path, url: string, fallback: string, net: seq<Response>)
    requires '/' !in NameUrl(url) && '/' !in fallback && SlashFreeLocations(net)
    ensures ChangesOnlyAt(t, HitResult(t, target, url, fallback, net).fs, target)
    decreases |net|, 1
  {
    if Makeable(t, target) {
      if net != [] && net[0].location.Some? {
        HitFrameHop(t, target, url, fallback, net);
      } else {
        HitFrameEnd(t, target, url, fallback, net);
      }
    }
  }

  /** HitFrame for a redirect: the rest of the chain changes the tree. */
  lemma {:induction false} HitFrameHop(t: Fs, target: Path, url: string, fallback: string, net: seq<Response>)
    requires '/' !in NameUrl(url) && '/' !in fallback && SlashFreeLocations(net)
    requires Makeable(t, target) && net != [] && net[0].location.Some?
    ensures ChangesOnlyAt(t, HitResult(t, target, url, fallback, net).fs, target)
    decreases |net|, 0
  {
    var u := Made(t, target);
    MadeEntries(t, target);
    assert ChangesOnlyAt(t, u, target);
    var next := Resolve(url, net[0].location.value);
    SuffixTail(net);
    SlashFreeSuffix(net[1..], net);
    HitFrame(u, target, next, ChosenName(url, fallback), net[1..]);
    var r := HitResult(u, target, next, ChosenName(url, fallback), net[1..]);
    assert HitResult(t, target, url, fallback, net) == r;
    ChangesOnlyAtTrans(t, u, r.fs, target);
  }

  /** HitFrame for the last response: at most the one file is written. */
  lemma HitFrameEnd(t: Fs, target: Path, url: string, fallback: string, net: seq<Response>)
    requires Makeable(t, target) && (net == [] || net[0].location.None?)
    ensures ChangesOnlyAt(t, HitResult(t, target, url, fallback, net).fs, target)
  {
    var u, g := Made(t, target), HitResult(t, target, url, fallback, net).fs;
    var name := ChosenName(url, fallback);
    HitEndTree(t, target, url, fallback, net);
    MadeEntries(t, target);
    assert ChangesOnlyAt(t, u, target);
    if g != u {
      WriteInside(u, target, name, File(net[0].body));
      ChangesOnlyAtTrans(t, u, g, target);
    }
  }

  /** The last response leaves the made tree, or that tree with the one
      file written. */
  lemma HitEndTree(t: Fs, target: Path, url: string, fallback: string, net: seq<Response>)
    requires Makeable(t, target) && (net == [] || net[0].location.None?)
    ensures var u, g := Made(t, target), HitResult(t, target, url, fallback, net).fs;
      g == u || (net != [] && g == u[target + [ChosenName(url, fallback)] := File(net[0].body)])
  {
    var u, h := Made(t, target), HitResult(t, target, url, fallback, net);
    var name := ChosenName(url, fallback);
    if net != [] {
      if net[0].status == 404 {
        assert h == Fetched(u, Skipped, net[1..]);
      } else if net[0].contentLength.None? {
        assert h == Fetched(u, Raised(MissingLength), net[1..]);
      } else if name in Present(u, target) {
        assert h == Fetched(u, Skipped, net[1..]);
      } else if !IsDir(u, target) {
        assert h == Fetched(u, Raised(OpenFailed), net[1..]);
      } else {
        assert h.fs == u[target + [name] := File(net[0].body)];
      }
    }
  }

  /** Writing one entry directly inside target is a change at target. */
  lemma WriteInside(u: Fs, target: Path, name: string, node: Node)
    ensures ChangesOnlyAt(u, u[target + [name] := node], target)
  {
    assert target < target + [name];
  }

  /** `hit_file` only adds entries, and leaves target itself as it was. */
  lemma {:induction false} HitKeeps(t: Fs, target: Path, url: string, fallback: string, net: seq<Response>)
    ensures var g := HitResult(t, target, url, fallback, net).fs;
      t.Keys <= g.Keys && (target in t ==> g[target] == t[target])
    decreases |net|, 1
  {
    if Makeable(t, target) {
      MadeEntries(t, target);
      if net != [] && net[0].location.Some? {
        HitKeepsHop(t, target, url, fallback, net);
      } else {
        assert target != target + [ChosenName(url, fallback)];
      }
    }
  }

  lemma {:induction false} HitKeepsHop(t: Fs, target: Path, url: string, fallback: string, net: seq<Response>)
    requires Makeable(t, target) && net != [] && net[0].location.Some?
    requires t.Keys <= Made(t, target).Keys && (target in t ==> Made(t, target)[target] == t[target])
    ensures var g := HitResult(t, target, url, fallback, net).fs;
      t.Keys <= g.Keys && (target in t ==> g[target] == t[target])
    decreases |net|, 0
  {
    var u, next := Made(t, target), Resolve(url, net[0].location.value);
    assert HitResult(t, target, url, fallback, net) == HitResult(u, target, next, ChosenName(url, fallback), net[1..]);
    HitKeeps(u, target, next, ChosenName(url, fallback), net[1..]);
  }

  /** Asked again with the same responses, on a tree that holds everything
      the first run left, `hit_file` changes nothing and saves nothing: what
      was written then, whole or broken off, is found and skipped. */
  lemma {:induction false} HitRerun(u: Fs, f: Fs, target: Path, url: string, fallback: string, net: seq<Response>)
    requires target in u && target in f && (u[target].Dir? <==> f[target].Dir?)
    requires HitResult(u, target, url, fallback, net).fs.Keys <= f.Keys
    ensures var h, r := HitResult(u, target, url, fallback, net), HitResult(f, target, url, fallback, net);
      && r.fs == f && r.rest == h.rest
      && r.hit == (if h.hit.Saved? || h.hit == Raised(StreamBroken) then Skipped else h.hit)
    decreases |net|, 1
  {
    if net != [] && net[0].location.Some? {
      HitRerunHop(u, f, target, url, fallback, net);
    } else if net != [] {
      HitRerunEnd(u, f, target, url, fallback, net);
    }
  }

  /** HitRerun for a redirect: both runs follow it alike. */
  lemma {:induction false} HitRerunHop(u: Fs, f: Fs, target: Path, url: string, fallback: string, net: seq<Response>)
    requires target in u && target in f && (u[target].Dir? <==> f[target].Dir?)
    requires HitResult(u, target, url, fallback, net).fs.Keys <= f.Keys
    requires net != [] && net[0].location.Some?
    ensures var h, r := HitResult(u, target, url, fallback, net), HitResult(f, target, url, fallback, net);
      && r.fs == f && r.rest == h.rest
      && r.hit == (if h.hit.Saved? || h.hit == Raised(StreamBroken) then Skipped else h.hit)
    decreases |net|, 0
  {
    HitRerun(u, f, target, Resolve(url, net[0].location.value), ChosenName(url, fallback), net[1..]);
  }

  /** HitRerun for the last response of a chain. */
  lemma HitRerunEnd(u: Fs, f: Fs, target: Path, url: string, fallback: string, net: seq<Response>)
    requires target in u && target in f && (u[target].Dir? <==> f[target].Dir?)
    requires HitResult(u, target, url, fallback, net).fs.Keys <= f.Keys
    requires net != [] && net[0].location.None?
    ensures var h, r := HitResult(u, target, url, fallback, net), HitResult(f, target, url, fallback, net);
      && r.fs == f && r.rest == h.rest
      && r.hit == (if h.hit.Saved? || h.hit == Raised(StreamBroken) then Skipped else h.hit)
  {
    var name := ChosenName(url, fallback);
    if net[0].status != 404 && net[0].contentLength.Some? && IsDir(u, target) {
      forall x | x in Listing(u, target) ensures x in Listing(f, target) {
        ListingMember(u, target, x);
        ListingMember(f, target, x);
      }
      if name !in Present(u, target) {
        ListingMember(f, target, name);
      }
    }
  }

  /** Making target first changes nothing about a download, since `hit_file`
      makes it itself. */
  lemma HitAfterMade(t: Fs, target: Path, url: string, fallback: string, net: seq<Response>)
    requires Makeable(t, target)
    ensures HitResult(Made(t, target), target, url, fallback, net) == HitResult(t, target, url, fallback, net)
  {
    MadeEntries(t, target);
  }

  /** A file whose body broke off is left in place, and the next run takes it
      for an existing download and skips it. */
  lemma BrokenStreamThenSkipped(t: Fs, target: Path, url: string, fallback: string, net: seq<Response>)
    requires [] in t
    requires HitResult(t, target, url, fallback, net).hit == Raised(StreamBroken)
    ensures var r := HitResult(t, target, url, fallback, net);
      HitResult(r.fs, target, url, fallback, net).hit == Skipped
  {
    var r := HitResult(t, target, url, fallback, net);
    assert Makeable(t, target);
    var u := Made(t, target);
    MadeEntries(t, target);
    HitAfterMade(t, target, url, fallback, net);
    HitKeeps(u, target, url, fallback, net);
    assert target in r.fs && r.fs[target] == u[target];
    HitRerun(u, r.fs, target, url, fallback, net);
  }

  /** `hit_file` on the disk: makes target, follows the redirects by calling
      itself, and writes the body to the chosen name. */
  method HitFile(disk: Disk, target: Path, url: string, fileName: string, net: seq<Response>)
    returns (hit: Hit, rest: seq<Response>)
    requires disk.Valid()
    modifies disk
    ensures disk.Valid() && Fetched(disk.fs, hit, rest) == HitResult(old(disk.fs), target, url, fileName, net)
    decreases |net|
  {
    var made := disk.EnsureDir(target);
    if !made {
      return Raised(NotADirectory), net;
    }
    var name := ChosenName(url, fileName);
    if net == [] {
      return Raised(ConnectionFailed), [];
    }
    var response := net[0];
    if response.location.Some? {
      hit, rest := HitFile(disk, target, Resolve(url, response.location.value), name, net[1..]);
      return;
    }
    if response.status == 404 {
      return Skipped, net[1..];
    }
    if response.contentLength.None? {
      return Raised(MissingLength), net[1..];
    }
    if name in Present(disk.fs, target) {
      return Skipped, net[1..];
    }
    var path := target + [name];
    assert Parent(path) == target;
    ListingMember(disk.fs, target, name);
    var written := disk.WriteFile(path, response.body);
    if !written {
      return Raised(OpenFailed), net[1..];
    }
    hit := if response.complete then Saved(name) else Raised(StreamBroken);
    rest := net[1..];
  }

  // ---------------------------------------------------------------------------
  // curse_file
  // ---------------------------------------------------------------------------

  const CurseProjects := "https://minecraft.curseforge.com/projects/"

  /** The CurseForge download URL of a file of a project. */
  function CurseUrl(project: string, file: string): string {
    CurseProjects + project + "/files/" + file + "/" + "download"
  }

  /** The CurseForge URL itself is named `download`, so the name at the first
      hop is the fallback. */
  lemma CurseUrlName(project: string, file: string, fallback: string)
    ensures NameUrl(CurseUrl(project, file)) == "download"
    ensures ChosenName(CurseUrl(project, file), fallback) == fallback
  {
    NameUrlAfterSlash(CurseProjects + project + "/files/" + file, "download");
  }

  /** `curse_file(project_id, file_id, path)`. */
  function CurseFile(t: Fs, mods: Path, project: string, file: string, net: seq<Response>): (r: Fetched)
    ensures Suffix(r.rest, net)
    ensures r.hit.Saved? ==>
      r.hit.name == LastNamed(Follow(CurseUrl(project, file), net).urls, file + ".jar") && r.hit.name != ""
  {
    HitSavedName(t, mods, CurseUrl(project, file), file + ".jar", net);
    HitResult(t, mods, CurseUrl(project, file), file + ".jar", net)
  }

  /** When every URL of the chain is named `download`, the file is stored as
      `<fileId>.jar` (file 55 becomes `55.jar`, never `download`). */
  lemma CurseFileJarName(t: Fs, mods: Path, project: string, file: string, net: seq<Response>)
    requires AllNamedDownload(Follow(CurseUrl(project, file), net).urls)
    ensures CurseFile(t, mods, project, file, net).hit.Saved? ==>
      CurseFile(t, mods, project, file, net).hit.name == file + ".jar"
  {
    var url, fallback := CurseUrl(project, file), file + ".jar";
    var urls := Follow(url, net).urls;
    HitSavedName(t, mods, url, fallback, net);
    LastNamedAllDownload(urls, fallback);
  }

  /** Redirected to a URL that names the file, the file gets that name. */
  lemma CurseFileNamedByRedirect(t: Fs, mods: Path, project: string, file: string, host: string, name: string,
                                 net: seq<Response>)
    requires |net| >= 2 && net[0].location == Some(host + "/" + EscapeSegment(name))
    requires net[1].location.None? && name != "download" && host != ""
    ensures CurseFile(t, mods, project, file, net).hit.Saved? ==>
      CurseFile(t, mods, project, file, net).hit.name == name
  {
    var url := CurseUrl(project, file);
    var next := host + "/" + EscapeSegment(name);
    HitSavedName(t, mods, url, file + ".jar", net);
    NameUrlRoundTrip(host, name);
    assert Follow(url, net).urls == [url, next];
  }

  // ---------------------------------------------------------------------------
  // The download loop of modpack_step
  // ---------------------------------------------------------------------------

  /** One entry of `files`, with `str()` of its ids (None for a missing key). */
  datatype FileRef = FileRef(projectID: Option<string>, fileID: Option<string>)

  /** The state the download loop carries: the disk, the responses left, and
      the number of files skipped so far. */
  datatype Tally = Tally(fs: Fs, net: seq<Response>, skipped: nat)

  /** The loop body saves a file for this entry: both ids are there and
      `curse_file` returns a non-empty name. */
  predicate Installs(a: Tally, mods: Path, file: FileRef) {
    && file.projectID.Some? && file.fileID.Some?
    && var h := CurseFile(a.fs, mods, file.projectID.value, file.fileID.value, a.net);
       h.hit.Saved? && h.hit.name != ""
  }

  /** One pass of the loop body: an entry without both ids raises before any
      request, and counts as skipped; otherwise `curse_file` runs, and anything
      but a non-empty saved name counts as skipped. */
  function FetchOne(a: Tally, mods: Path, file: FileRef): (r: Tally)
    ensures a.skipped <= r.skipped <= a.skipped + 1 && Suffix(r.net, a.net)
    ensures r.skipped == a.skipped <==> Installs(a, mods, file)
    ensures file.projectID.None? || file.fileID.None? ==> r.fs == a.fs && r.net == a.net
  {
    if file.projectID.None? || file.fileID.None? then
      assert a.net[|a.net| - |a.net|..] == a.net;
      Tally(a.fs, a.net, a.skipped + 1)
    else
      var h := CurseFile(a.fs, mods, file.projectID.value, file.fileID.value, a.net);
      Tally(h.fs, h.rest, if h.hit.Saved? && h.hit.name != "" then a.skipped else a.skipped + 1)
  }

  /** An entry counted as installed was written as a new file directly inside
      mods: the name was not there before the pass and is there after it. */
  lemma InstallIsNew(a: Tally, mods: Path, file: FileRef)
    requires Installs(a, mods, file)
    ensures var h := CurseFile(a.fs, mods, file.projectID.value, file.fileID.value, a.net);
      var g := FetchOne(a, mods, file).fs;
      && h.hit.name !in Listing(a.fs, mods) && h.hit.name in Listing(g, mods)
      && mods + [h.hit.name] in g && g[mods + [h.hit.name]].File?
  {
    var url, fallback := CurseUrl(file.projectID.value, file.fileID.value), file.fileID.value + ".jar";
    var h := HitResult(a.fs, mods, url, fallback, a.net);
    assert FetchOne(a, mods, file).fs == h.fs;
    assert Makeable(a.fs, mods);
    var c, u := Follow(url, a.net), Made(a.fs, mods);
    var name := LastNamed(c.urls, fallback);
    MadeEntries(a.fs, mods);
    HitOutcome(a.fs, mods, url, fallback, a.net);
    assert c.final.Some? && c.final.value.status != 404 && c.final.value.contentLength.Some?;
    assert name !in Present(u, mods) && IsDir(u, mods);
    assert h.fs == u[mods + [name] := File(c.final.value.body)] && h.hit.name == name;
    ListingMember(u, mods, name);
    ListingMember(a.fs, mods, name);
    ListingMember(h.fs, mods, name);
  }

  /** The whole loop, file after file; no outcome stops it. */
  function FetchAll(a: Tally, mods: Path, files: seq<FileRef>): (r: Tally)
    ensures a.skipped <= r.skipped <= a.skipped + |files| && Suffix(r.net, a.net)
    decreases |files|
  {
    if files == [] then
      assert a.net[|a.net| - |a.net|..] == a.net;
      a
    else
      var b := FetchOne(a, mods, files[0]);
      var r := FetchAll(b, mods, files[1..]);
      SuffixTrans(r.net, b.net, a.net);
      r
  }

  /** Every file id is free of '/'. */
  predicate SlashFreeIds(files: seq<FileRef>) {
    forall i | 0 <= i < |files| && files[i].fileID.Some? :: '/' !in files[i].fileID.value
  }

  /** One pass writes only directly inside mods, and creates directories on
      the way to it, as long as the file id and the redirect names are free
      of '/'. */
  lemma FetchOneFrame(a: Tally, mods: Path, file: FileRef)
    requires SlashFreeLocations(a.net) && (file.fileID.Some? ==> '/' !in file.fileID.value)
    ensures ChangesOnlyAt(a.fs, FetchOne(a, mods, file).fs, mods)
  {
    if file.projectID.Some? && file.fileID.Some? {
      CurseFrame(a.fs, mods, file.projectID.value, file.fileID.value, a.net);
    }
  }

  /** `curse_file` writes only directly inside mods when the file id and the
      redirect names are free of '/'. */
  lemma CurseFrame(t: Fs, mods: Path, project: string, id: string, net: seq<Response>)
    requires SlashFreeLocations(net) && '/' !in id
    ensures ChangesOnlyAt(t, CurseFile(t, mods, project, id, net).fs, mods)
  {
    CurseUrlName(project, id, id + ".jar");
    assert '/' !in id + ".jar";
    HitFrame(t, mods, CurseUrl(project, id), id + ".jar", net);
  }

  lemma SlashFreeIdsTail(files: seq<FileRef>)
    requires files != [] && SlashFreeIds(files)
    ensures SlashFreeIds(files[1..])
  {
    forall i | 0 <= i < |files| - 1 && files[1..][i].fileID.Some? ensures '/' !in files[1..][i].fileID.value {
      assert files[1..][i] == files[i + 1];
    }
  }

  /** The loop only writes files directly inside mods, and creates directories
      on the way to it, as long as no file id and no redirect name holds a '/'. */
  lemma {:induction false} FetchFrame(a: Tally, mods: Path, files: seq<FileRef>)
    requires SlashFreeLocations(a.net) && SlashFreeIds(files)
    ensures ChangesOnlyAt(a.fs, FetchAll(a, mods, files).fs, mods)
    decreases |files|
  {
    if files != [] {
      var b := FetchOne(a, mods, files[0]);
      FetchOneFrame(a, mods, files[0]);
      SlashFreeSuffix(b.net, a.net);
      SlashFreeIdsTail(files);
      FetchFrame(b, mods, files[1..]);
      ChangesOnlyAtTrans(a.fs, b.fs, FetchAll(b, mods, files[1..]).fs, mods);
    }
  }

  /** The loop only adds entries, and leaves mods itself as it was. */
  lemma {:induction false} FetchKeeps(a: Tally, mods: Path, files: seq<FileRef>)
    ensures var g := FetchAll(a, mods, files).fs;
      a.fs.Keys <= g.Keys && (mods in a.fs ==> g[mods] == a.fs[mods])
    decreases |files|
  {
    if files != [] {
      var b := FetchOne(a, mods, files[0]);
      var file := files[0];
      if file.projectID.Some? && file.fileID.Some? {
        HitKeeps(a.fs, mods, CurseUrl(file.projectID.value, file.fileID.value), file.fileID.value + ".jar", a.net);
      }
      FetchKeeps(b, mods, files[1..]);
    }
  }

  /** Removing a smaller set leaves at least as much of a set. */
  lemma NestedDifference<T>(a: set<T>, b: set<T>, c: set<T>)
    requires a <= b <= c
    ensures |c - a| == |c - b| + |b - a|
  {
    assert c - a == (c - b) + (b - a);
    assert (c - b) * (b - a) == {};
  }

  /** Every file the loop counts as installed is a name in mods that was not
      there before: the installed count is at most the number of new entries. */
  lemma {:induction false} FetchInstalledAreNew(a: Tally, mods: Path, files: seq<FileRef>)
    ensures var r := FetchAll(a, mods, files);
      |files| - (r.skipped - a.skipped) <= |Listing(r.fs, mods) - Listing(a.fs, mods)|
    decreases |files|
  {
    if files != [] {
      var b := FetchOne(a, mods, files[0]);
      var r := FetchAll(b, mods, files[1..]);
      FetchInstalledAreNew(b, mods, files[1..]);
      FetchKeeps(a, mods, [files[0]]);
      FetchKeeps(b, mods, files[1..]);
      assert FetchAll(a, mods, [files[0]]) == b;
      NestedDifference(Listing(a.fs, mods), Listing(b.fs, mods), Listing(r.fs, mods));
      if Installs(a, mods, files[0]) {
        var f := files[0];
        InstallIsNew(a, mods, f);
        var name := CurseFile(a.fs, mods, f.projectID.value, f.fileID.value, a.net).hit.name;
        assert name in Listing(b.fs, mods) - Listing(a.fs, mods);
      }
    }
  }

  /** One file of a rerun: nothing changes, the file is skipped, and the same
      responses are used up as the first time. */
  lemma FetchOneRerun(a: Tally, f: Fs, mods: Path, file: FileRef, k: nat)
    requires mods in a.fs && mods in f && (a.fs[mods].Dir? <==> f[mods].Dir?)
    requires FetchOne(a, mods, file).fs.Keys <= f.Keys
    ensures var b := FetchOne(a, mods, file);
      && FetchOne(Tally(f, a.net, k), mods, file) == Tally(f, b.net, k + 1)
      && mods in b.fs && b.fs[mods] == a.fs[mods]
  {
    if file.projectID.Some? && file.fileID.Some? {
      var url, fallback := CurseUrl(file.projectID.value, file.fileID.value), file.fileID.value + ".jar";
      HitKeeps(a.fs, mods, url, fallback, a.net);
      HitRerun(a.fs, f, mods, url, fallback, a.net);
    }
  }

  /** Run again with the same responses on a disk holding everything the
      first run left, the loop changes nothing and skips every file. */
  lemma {:induction false} FetchRerun(a: Tally, f: Fs, mods: Path, files: seq<FileRef>, k: nat)
    requires mods in a.fs && mods in f && (a.fs[mods].Dir? <==> f[mods].Dir?)
    requires FetchAll(a, mods, files).fs.Keys <= f.Keys
    ensures FetchAll(Tally(f, a.net, k), mods, files) == Tally(f, FetchAll(a, mods, files).net, k + |files|)
    decreases |files|
  {
    if files != [] {
      var b := FetchOne(a, mods, files[0]);
      FetchKeeps(b, mods, files[1..]);
      FetchOneRerun(a, f, mods, files[0], k);
      FetchRerun(b, f, mods, files[1..], k + 1);
      assert FetchAll(Tally(f, a.net, k), mods, files) == FetchAll(Tally(f, b.net, k + 1), mods, files[1..]);
    }
  }

  // ---------------------------------------------------------------------------
  // modpack_step
  // ---------------------------------------------------------------------------

  /** The keys of manifest.json that `modpack_step` reads (None for a missing
      key); `files` and `overrides` are optional, the others are required. */
  datatype Manifest = Manifest(
    name: Option<string>,
    version: Option<string>,
    author: Option<string>,
    files: Option<seq<FileRef>>,
    overrides: Option<string>)

  /** The overrides name one directory of the pack, beside `minecraft`. */
  predicate OverridesNamed(m: Manifest) {
    m.overrides.Some? ==>
      var o := m.overrides.value;
      o != "" && o != "." && o != ".." && o != "minecraft" && '/' !in o
  }

  /** How `modpack_step` ends: the counts it prints, or the exception it raises. */
  datatype Outcome = Installed(installed: nat, skipped: nat) | Failed(error: PyError)

  datatype Run = Run(fs: Fs, outcome: Outcome, rest: seq<Response>)

  /** The game directory of a pack. */
  function Minecraft(dir: Path): Path {
    dir + ["minecraft"]
  }

  /** `modpack_step(mp_name, mp_dir)` given the parsed manifest: the required
      keys, then `files`, before anything is touched; then `minecraft/mods` is
      made, every file is fetched, and, when the manifest names overrides, they
      are laid over `minecraft`. */
  function ModpackResult(t: Fs, dir: Path, m: Manifest, net: seq<Response>): (r: Run)
    requires OverridesNamed(m)
    ensures Suffix(r.rest, net)
    ensures r.outcome.Installed? ==>
      m.files.Some? && r.outcome.installed + r.outcome.skipped == |m.files.value|
    ensures m.name.None? || m.version.None? || m.author.None? || m.files.None? ==>
      r.fs == t && r.rest == net && r.outcome.Failed?
    ensures m.name.Some? && m.version.Some? && m.author.Some? && m.files.None? ==>
      r.outcome == Failed(NoFilesDefined)
  {
    SuffixRefl(net);
    if m.name.None? then Run(t, Failed(KeyMissing("name")), net)
    else if m.version.None? then Run(t, Failed(KeyMissing("version")), net)
    else if m.author.None? then Run(t, Failed(KeyMissing("author")), net)
    else if m.files.None? then Run(t, Failed(NoFilesDefined), net)
    else
      var files, mods := m.files.value, Minecraft(dir) + ["mods"];
      if !Makeable(t, mods) then Run(t, Failed(NotADirectory), net)
      else
        var a := FetchAll(Tally(Made(t, mods), net, 0), mods, files);
        Overrides(a.fs, dir, m.overrides, Installed(|files| - a.skipped, a.skipped), a.net)
  }

  /** The end of `modpack_step`: `copytree` of the overrides, when the manifest
      names them, into `minecraft`; the counts stand unless the copy raises. */
  function Overrides(t: Fs, dir: Path, overrides: Option<string>, counts: Outcome, rest: seq<Response>): (r: Run)
    ensures r.rest == rest && (r.outcome == counts || r.fs == t)
    ensures overrides.None? ==> r == Run(t, counts, rest)
    ensures overrides.Some? && counts.Installed? ==>
      var src := dir + [overrides.value];
      && (r.outcome == counts <==> IsDir(t, src) && SameKinds(t, src, Minecraft(dir)))
      && (r.outcome == counts ==> r.fs == Overlay(t, src, Minecraft(dir)))
      && (!IsDir(t, src) ==> r.outcome == Failed(OverridesMissing))
  {
    if overrides.None? then Run(t, counts, rest)
    else
      var src := dir + [overrides.value];
      if !IsDir(t, src) then Run(t, Failed(OverridesMissing), rest)
      else if !SameKinds(t, src, Minecraft(dir)) then Run(t, Failed(KindClash), rest)
      else Run(Overlay(t, src, Minecraft(dir)), counts, rest)
  }

  /** Outside `minecraft` the disk is unchanged, except for directories made
      on the way to it; the overrides are copied, and stay where they were.
      This needs every file id and redirect name to be free of '/'. */
  lemma ModpackFrame(t: Fs, dir: Path, m: Manifest, net: seq<Response>)
    requires OverridesNamed(m)
    requires SlashFreeLocations(net) && (m.files.Some? ==> SlashFreeIds(m.files.value))
    ensures var r := ModpackResult(t, dir, m, net);
      forall q | q in t && !(Minecraft(dir) <= q) :: q in r.fs && r.fs[q] == t[q]
    ensures var r := ModpackResult(t, dir, m, net);
      forall q | q in r.fs && q !in t && !(Minecraft(dir) <= q) :: q < Minecraft(dir) && r.fs[q] == Dir
  {
    var r, mc := ModpackResult(t, dir, m, net), Minecraft(dir);
    var mods := mc + ["mods"];
    if m.name.Some? && m.version.Some? && m.author.Some? && m.files.Some? && Makeable(t, mods) {
      var u := Made(t, mods);
      MadeEntries(t, mods);
      var a := FetchAll(Tally(u, net, 0), mods, m.files.value);
      FetchFrame(Tally(u, net, 0), mods, m.files.value);
      assert r == Overrides(a.fs, dir, m.overrides, Installed(|m.files.value| - a.skipped, a.skipped), a.net);
      AddedOnTheWay(t, u, a.fs, mc);
      forall q | q in r.fs && q !in t && !(mc <= q) ensures q in a.fs && r.fs[q] == a.fs[q] {
        if m.overrides.Some? && r.fs != a.fs {
          assert r.fs == Overlay(a.fs, dir + [m.overrides.value], mc);
          assert !Covered(a.fs, dir + [m.overrides.value], mc, q);
        }
      }
    }
  }

  /** Made directories on the way to `<mc>/mods`, then changes confined to
      `mods`, add nothing outside mc but directories on the way to it. */
  lemma AddedOnTheWay(t: Fs, u: Fs, g: Fs, mc: Path)
    requires forall q | q in u && q !in t :: q <= mc + ["mods"] && u[q] == Dir
    requires forall q | q in t :: q in u && u[q] == t[q]
    requires ChangesOnlyAt(u, g, mc + ["mods"])
    ensures forall q | q in g && q !in t && !(mc <= q) :: q < mc && g[q] == Dir
  {
    var mods := mc + ["mods"];
    forall q | q in g && q !in t && !(mc <= q) ensures q < mc && g[q] == Dir {
      assert !(mods < q) by {
        PrefixOfJoin(mc, q, []);
        assert mc <= mods;
      }
      assert q <= mods && g[q] == Dir;
      PrefixOfJoin(q, mc, ["mods"]);
    }
  }

  /** The installed count `modpack_step` prints is at most the number of
      names that are new in `minecraft/mods`. */
  lemma ModpackInstalledAreNew(t: Fs, dir: Path, m: Manifest, net: seq<Response>)
    requires OverridesNamed(m)
    ensures var r, mods := ModpackResult(t, dir, m, net), Minecraft(dir) + ["mods"];
      r.outcome.Installed? ==> r.outcome.installed <= |Listing(r.fs, mods) - Listing(t, mods)|
  {
    var r, mods := ModpackResult(t, dir, m, net), Minecraft(dir) + ["mods"];
    if r.outcome.Installed? {
      var files, u := m.files.value, Made(t, mods);
      MadeEntries(t, mods);
      assert Listing(u, mods) == Listing(t, mods) by {
        forall x ensures x in Listing(u, mods) <==> x in Listing(t, mods) {
          ListingMember(u, mods, x);
          ListingMember(t, mods, x);
        }
      }
      var a := FetchAll(Tally(u, net, 0), mods, files);
      FetchInstalledAreNew(Tally(u, net, 0), mods, files);
      assert a.fs.Keys <= r.fs.Keys;
      SubsetSize(Listing(a.fs, mods) - Listing(t, mods), Listing(r.fs, mods) - Listing(t, mods));
    }
  }

  /** Installing the same pack again with the same responses: every file is
      found and skipped (installed 0), and the disk is left as it was. */
  lemma ModpackRerun(t: Fs, dir: Path, m: Manifest, net: seq<Response>)
    requires OverridesNamed(m)
    requires ModpackResult(t, dir, m, net).outcome.Installed?
    ensures var r := ModpackResult(t, dir, m, net);
      ModpackResult(r.fs, dir, m, net) == Run(r.fs, Installed(0, |m.files.value|), r.rest)
  {
    var r, files, mc := ModpackResult(t, dir, m, net), m.files.value, Minecraft(dir);
    var mods := mc + ["mods"];
    var u := Made(t, mods);
    MadeEntries(t, mods);
    var a := FetchAll(Tally(u, net, 0), mods, files);
    FetchKeeps(Tally(u, net, 0), mods, files);
    if m.overrides.Some? {
      var src := dir + [m.overrides.value];
      SiblingsDisjoint(dir, m.overrides.value, "minecraft");
      OverlayIdempotent(a.fs, src, mc);
      assert r.fs == Overlay(a.fs, src, mc);
      assert mods in r.fs && (r.fs[mods].Dir? <==> a.fs[mods].Dir?) by {
        if Covered(a.fs, src, mc, mods) {
          assert mods[|mc|..] == ["mods"];
        }
      }
      assert !Covered(a.fs, src, mc, src);
      assert IsDir(r.fs, src);
    }
    FetchRerun(Tally(u, net, 0), r.fs, mods, files, 0);
  }

  /** One turn of the download loop of `modpack_step`. */
  method FetchFile(disk: Disk, mods: Path, file: FileRef, skipped: nat, rest: seq<Response>)
    returns (skipped': nat, rest': seq<Response>)
    requires disk.Valid() && mods in disk.fs
    modifies disk
    ensures disk.Valid() && mods in disk.fs
    ensures Tally(disk.fs, rest', skipped') == FetchOne(Tally(old(disk.fs), rest, skipped), mods, file)
  {
    skipped', rest' := skipped, rest;
    if file.projectID.None? || file.fileID.None? {
      skipped' := skipped + 1;
    } else {
      HitKeeps(disk.fs, mods, CurseUrl(file.projectID.value, file.fileID.value), file.fileID.value + ".jar", rest);
      var hit;
      hit, rest' := HitFile(disk, mods, CurseUrl(file.projectID.value, file.fileID.value),
                            file.fileID.value + ".jar", rest);
      if !(hit.Saved? && hit.name != "") {
        skipped' := skipped + 1;
      }
    }
  }

  /** The download loop of `modpack_step`: one `curse_file` per entry with
      both ids, counting every entry that did not save a file as skipped. */
  method FetchFiles(disk: Disk, mods: Path, files: seq<FileRef>, net: seq<Response>)
    returns (skipped: nat, rest: seq<Response>)
    requires disk.Valid() && mods in disk.fs
    modifies disk
    ensures disk.Valid() && Tally(disk.fs, rest, skipped) == FetchAll(Tally(old(disk.fs), net, 0), mods, files)
  {
    ghost var start := Tally(disk.fs, net, 0);
    var index := 0;
    skipped, rest := 0, net;
    while index < |files|
      invariant index <= |files| && disk.Valid()
      invariant FetchAll(Tally(disk.fs, rest, skipped), mods, files[index..]) == FetchAll(start, mods, files)
      invariant mods in disk.fs
    {
      assert files[index..][1..] == files[index + 1..];
      skipped, rest := FetchFile(disk, mods, files[index], skipped, rest);
      index := index + 1;
    }
    assert files[index..] == [];
  }

  /** `modpack_step` on the disk. */
  method ModpackStep(disk: Disk, dir: Path, m: Manifest, net: seq<Response>)
    returns (outcome: Outcome, rest: seq<Response>)
    requires disk.Valid() && OverridesNamed(m)
    modifies disk
    ensures disk.Valid() && Run(disk.fs, outcome, rest) == ModpackResult(old(disk.fs), dir, m, net)
  {
    if m.name.None? {
      return Failed(KeyMissing("name")), net;
    }
    if m.version.None? {
      return Failed(KeyMissing("version")), net;
    }
    if m.author.None? {
      return Failed(KeyMissing("author")), net;
    }
    if m.files.None? {
      return Failed(NoFilesDefined), net;
    }
    var files, minecraft := m.files.value, Minecraft(dir);
    var mods := minecraft + ["mods"];
    var made := disk.EnsureDir(mods);
    if !made {
      return Failed(NotADirectory), net;
    }
    MadeEntries(old(disk.fs), mods);
    ghost var start := Tally(disk.fs, net, 0);
    var skipped;
    skipped, rest := FetchFiles(disk, mods, files, net);
    FetchKeeps(start, mods, files);
    outcome := CopyOverrides(disk, dir, m, Installed(|files| - skipped, skipped), rest);
  }

  /** The overrides step on the disk; `mods` has been made by then. */
  method CopyOverrides(disk: Disk, dir: Path, m: Manifest, counts: Outcome, rest: seq<Response>)
    returns (outcome: Outcome)
    requires disk.Valid() && OverridesNamed(m) && Minecraft(dir) + ["mods"] in disk.fs
    modifies disk
    ensures disk.Valid() && Run(disk.fs, outcome, rest) == Overrides(old(disk.fs), dir, m.overrides, counts, rest)
  {
    if m.overrides.None? {
      return counts;
    }
    var src, minecraft := dir + [m.overrides.value], Minecraft(dir);
    if !IsDir(disk.fs, src) {
      return Failed(OverridesMissing);
    }
    if !SameKinds(disk.fs, src, minecraft) {
      return Failed(KindClash);
    }
    SiblingsDisjoint(dir, m.overrides.value, "minecraft");
    StrictAncestorIsDir(disk.fs, minecraft, minecraft + ["mods"]);
    disk.CopyTree(src, minecraft);
    outcome := counts;
  }

  // ---------------------------------------------------------------------------
  // download_modpack and the command line
  // ---------------------------------------------------------------------------

  /** The pack name `download_modpack` derives from what `hit_file` returned:
      the saved name with every `.zip` removed; a skip or an empty name raises,
      and so does whatever `hit_file` raised. */
  function PackName(hit: Hit): (r: Result<string, PyError>)
    ensures hit.Raised? ==> r == Err(hit.error)
    ensures hit.Skipped? ==> r == Err(DownloadFailed)
    ensures r.Ok? <==> hit.Saved? && hit.name != ""
    ensures r.Ok? ==> |r.value| == |hit.name| - 4 * Matches(hit.name, ".zip")
    ensures r.Ok? && Find(hit.name, ".zip") >= 0 ==> |r.value| <= |hit.name| - 4
    ensures r.Ok? && Find(hit.name, ".zip") == -1 ==> r.value == hit.name
    ensures r.Ok? ==> r.value == Concat(Pieces(hit.name, ".zip"))
  {
    if hit.Raised? then Err(hit.error)
    else if hit.Skipped? || hit.name == "" then Err(DownloadFailed)
    else
      var stem := RemoveAll(hit.name, ".zip");
      Ok(stem)
  }

  /** An archive named `<stem>.zip`, with no other `.zip` in it, gives the
      pack name stem. */
  lemma PackNameOfArchive(stem: string)
    requires Find(stem + ".zip", ".zip") == |stem|
    ensures PackName(Saved(stem + ".zip")) == Ok(stem)
  {
    RemoveSuffixOnce(stem, ".zip");
  }

  /** `.zip` cannot overlap itself: its '.' does not come back inside it. */
  lemma ZipLeadsOnce()
    ensures ".zip"[0] !in ".zip"[1..]
  {
    assert ".zip"[1..] == "zip";
  }

  /** Every `.zip` goes: a name made of `.zip`-free pieces joined by `.zip`
      gives the pack name those pieces make one after the other (`a.zip.zip`
      names `a`). */
  lemma PackNameJoin(ps: seq<string>)
    requires ps != [] && forall k | 0 <= k < |ps| :: Find(ps[k], ".zip") == -1
    requires JoinWith(ps, ".zip") != ""
    ensures PackName(Saved(JoinWith(ps, ".zip"))) == Ok(Concat(ps))
  {
    ZipLeadsOnce();
    RemoveAllJoin(ps, ".zip");
  }

  /** `a.zip.zip` names the pack `a`. */
  lemma PackNameEveryZip()
    ensures PackName(Saved("a.zip.zip")) == Ok("a")
  {
    var ps := ["a", "", ""];
    assert Find("a", ".zip") == -1 && Find("", ".zip") == -1;
    assert ps[1..] == ["", ""] && ps[1..][1..] == [""];
    assert JoinWith([""], ".zip") == "";
    assert JoinWith(["", ""], ".zip") == "" + ".zip" + "";
    assert JoinWith(ps, ".zip") == "a" + ".zip" + ".zip" == "a.zip.zip";
    assert Concat([""]) == "" + Concat([]);
    assert Concat(["", ""]) == "" + Concat([""]);
    assert Concat(ps) == "a" + Concat(["", ""]) == "a";
    PackNameJoin(ps);
  }

  /** `mppath` with `/files/latest` appended unless `/files` occurs in it. */
  function WithFiles(p: string): string {
    if Find(p, "/files") == -1 then p + "/files/latest" else p
  }

  /** The routed URL always contains `/files`, and appending is idempotent. */
  lemma WithFilesContainsFiles(p: string)
    ensures Find(WithFiles(p), "/files") >= 0
    ensures WithFiles(WithFiles(p)) == WithFiles(p)
  {
    if Find(p, "/files") == -1 {
      var q := p + "/files/latest";
      assert q[|p|..|p| + 6] == "/files";
      FindOccurrence(q, "/files", |p|);
    }
  }

  /** The first occurrence lies past the start exactly when there is one and
      it is not at the start. */
  lemma FindPastStart(s: string, pat: string)
    ensures Find(s, pat) > 0 <==> (exists i: nat :: OccursAt(s, pat, i)) && !OccursAt(s, pat, 0)
  {
    if i: nat :| OccursAt(s, pat, i) {
      FindOccurrence(s, pat, i);
    }
  }

  /** Where the command line leads: an installer description (`.ccip`) file
      to read, or a pack URL to download. */
  datatype Route = FromCcip(path: string) | FromUrl(url: string)

  /** The `__main__` block as written: no argument raises; `mppath.index('.ccip')`
      is taken as a truth value, so only an occurrence past the first
      character selects the `.ccip` branch; anything else is a URL. */
  function RouteArgs(argv: seq<string>): (r: Result<Route, PyError>)
    ensures r == Err(NoUrlGiven) <==> |argv| < 2
    ensures |argv| >= 2 ==>
      && r.Ok?
      && (r.value.FromCcip? <==> (exists i: nat :: OccursAt(argv[1], ".ccip", i)) && !OccursAt(argv[1], ".ccip", 0))
    ensures r.Ok? && r.value.FromCcip? ==> r.value.path == argv[1]
    ensures r.Ok? && r.value.FromUrl? ==> r.value.url == WithFiles(argv[1])
  {
    if |argv| < 2 then Err(NoUrlGiven)
    else
      FindPastStart(argv[1], ".ccip");
      if Find(argv[1], ".ccip") > 0 then Ok(FromCcip(argv[1]))
      else Ok(FromUrl(WithFiles(argv[1])))
  }

  /** A URL route always carries `/files`. */
  lemma RouteUrlHasFiles(argv: seq<string>)
    requires RouteArgs(argv).Ok? && RouteArgs(argv).value.FromUrl?
    ensures Find(RouteArgs(argv).value.url, "/files") >= 0
  {
    WithFilesContainsFiles(argv[1]);
  }

  /** A path that starts with `.ccip` is downloaded as a URL. */
  lemma RouteMissesLeadingCcip()
    ensures RouteArgs(["install_pack.py", ".ccip"]) == Ok(FromUrl(".ccip/files/latest"))
  {
    assert OccursAt(".ccip", ".ccip", 0);
    FindOccurrence(".ccip", ".ccip", 0);
    assert |"/files"| == 6 && |".ccip"| == 5;
    assert Find(".ccip", "/files") == -1;
    assert WithFiles(".ccip") == ".ccip" + "/files/latest" == ".ccip/files/latest";
    var argv := ["install_pack.py", ".ccip"];
    assert argv[1] == ".ccip";
  }

  /** The routing the `.ccip` test evidently means: any occurrence counts. */
  function RouteArgsIntended(argv: seq<string>): (r: Result<Route, PyError>)
    ensures r == Err(NoUrlGiven) <==> |argv| < 2
  {
    if |argv| < 2 then Err(NoUrlGiven)
    else if Find(argv[1], ".ccip") >= 0 then Ok(FromCcip(argv[1]))
    else Ok(FromUrl(WithFiles(argv[1])))
  }

  /** Intended routing: the `.ccip` branch is taken exactly when `.ccip`
      occurs in the path, and otherwise the URL carries `/files`. */
  lemma RouteIntendedCcip(argv: seq<string>)
    requires |argv| >= 2
    ensures RouteArgsIntended(argv).value.FromCcip? <==> exists i: nat :: OccursAt(argv[1], ".ccip", i)
    ensures RouteArgsIntended(argv).value.FromUrl? ==> Find(RouteArgsIntended(argv).value.url, "/files") >= 0
  {
    if i: nat :| OccursAt(argv[1], ".ccip", i) {
      FindOccurrence(argv[1], ".ccip", i);
    }
    WithFilesContainsFiles(argv[1]);
  }
}
