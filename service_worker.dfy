/**
 * The offline worker: install fills the region "md-1.0.0fundamentals" with the
 * asset manifest, every GET is answered from the cache when it has the request
 * and from the network otherwise (each network response is stored in
 * "md-1.0.0pages"), and activate deletes regions selected by their name's prefix.
 */
module ServiceWorker {
  import opened Optional

  const Version := "md-1.0.0"
  const CacheUrls: seq<string> := [
    "./",
    "/pad",
    "/pad/md.js",
    "/pad/md.css",
    "/pad/sidb.js",
    "/pad/lib/CascadiaCode.ttf",
    "/pad/lib/easymde.min.js",
    "/pad/lib/easymde.min.css",
    "/pad/lib/vue-2.6.11.js",
    "/pad/lib/highlight.min.js",
    "/pad/lib/atom-one-light.css",
    "/pad/lib/fa/css/font-awesome.min.css",
    "/pad/lib/fa/fonts/fontawesome-webfont.woff2",
    "/pad/icon/mdp-512.png"
  ]
  /** The install-time region: version and suffix with no separator. */
  const Fundamentals := Version + "fundamentals"
  /** The region every network response is copied into. */
  const Pages := Version + "pages"

  /** A request: its HTTP method and URL. */
  datatype Request = Request(verb: string, url: string)
  datatype Response = Response(status: int, statusText: string, headers: map<string, string>, body: string)

  /** `unableToResolve()`: the reply when neither the cache nor the network can answer. */
  function UnableToResolve(): (r: Response)
    ensures r.status == 503 && !OkStatus(r)
    ensures "Content-Type" in r.headers && r.headers["Content-Type"] == "text/html"
  {
    Response(503, "Service Unavailable", map["Content-Type" := "text/html"], "<h1>Service unavailable</h1>")
  }

  /** A status `cache.addAll` accepts. */
  predicate OkStatus(r: Response)
  {
    200 <= r.status <= 299
  }

  /** `key.startsWith(version)`. */
  predicate IsCurrent(name: string)
  {
    Version <= name
  }

  ghost predicate Distinct(s: seq<string>)
  {
    forall i, j :: 0 <= i < j < |s| ==> s[i] != s[j]
  }

  /** The names a list holds. */
  ghost function Members(s: seq<string>): set<string>
  {
    set n | n in s
  }

  lemma MembersAppend(s: seq<string>, x: string)
    ensures Members(s + [x]) == Members(s) + {x}
  {
  }

  /** `names` without the ones in `gone`, order kept. */
  function Drop(names: seq<string>, gone: set<string>): (r: seq<string>)
    ensures forall x :: x in r <==> x in names && x !in gone
    ensures Distinct(names) ==> Distinct(r)
  {
    if names == [] then []
    else
      var rest := Drop(names[1..], gone);
      assert Distinct(names) ==> names[0] !in names[1..];
      if names[0] in gone then rest else [names[0]] + rest
  }

  lemma {:induction false} DropTwice(names: seq<string>, gone: set<string>, more: set<string>)
    ensures Drop(Drop(names, gone), more) == Drop(names, gone + more)
  {
    if names != [] {
      DropTwice(names[1..], gone, more);
      if names[0] !in gone {
        assert Drop(names, gone) == [names[0]] + Drop(names[1..], gone);
        assert Drop(names, gone)[1..] == Drop(names[1..], gone);
      }
    }
  }

  /**
   * Dropping from a concatenation drops from each part, and one name stays
   * exactly when it is not in `gone`: so the survivors keep their order.
   */
  lemma {:induction false} DropSplits(a: seq<string>, b: seq<string>, gone: set<string>)
    ensures Drop(a + b, gone) == Drop(a, gone) + Drop(b, gone)
  {
    if a == [] {
      assert a + b == b;
    } else {
      var ab := a + b;
      assert ab[0] == a[0] && ab[1..] == a[1..] + b;
      DropSplits(a[1..], b, gone);
      var head := if a[0] in gone then [] else [a[0]];
      assert Drop(ab, gone) == head + Drop(ab[1..], gone);
      assert Drop(a, gone) == head + Drop(a[1..], gone);
    }
  }

  /** A single name stays exactly when it is not dropped. */
  lemma DropOne(x: string, gone: set<string>)
    ensures Drop([x], gone) == if x in gone then [] else [x]
  {
  }

  lemma {:induction false} DropNothing(names: seq<string>)
    ensures Drop(names, {}) == names
  {
    if names != [] {
      DropNothing(names[1..]);
    }
  }

  /** `keys.filter(key => key.startsWith(version) == current)`. */
  function Select(keys: seq<string>, current: bool): (r: seq<string>)
    ensures forall x :: x in r <==> x in keys && IsCurrent(x) == current
  {
    if keys == [] then []
    else (if IsCurrent(keys[0]) == current then [keys[0]] else []) + Select(keys[1..], current)
  }

  /** The responses the network gives for the listed URLs. */
  function Fetched(urls: seq<string>, net: map<string, Response>): map<string, Response>
  {
    map u | u in urls && u in net :: net[u]
  }

  /** `caches.match(url)`: the entry of the first region, in creation order, that holds the URL. */
  function FirstMatch(names: seq<string>, regions: map<string, map<string, Response>>, url: string): Option<Response>
  {
    if names == [] then None
    else if names[0] in regions && url in regions[names[0]] then Some(regions[names[0]][url])
    else FirstMatch(names[1..], regions, url)
  }

  /** The cache answers exactly when some region it searches holds the URL, and then with that region's entry. */
  lemma {:induction false} FirstMatchFinds(names: seq<string>, regions: map<string, map<string, Response>>, url: string)
    ensures FirstMatch(names, regions, url).Some? <==>
              exists n :: n in names && n in regions && url in regions[n]
    ensures FirstMatch(names, regions, url).Some? ==>
              exists n :: n in names && n in regions && url in regions[n] &&
                          FirstMatch(names, regions, url).value == regions[n][url]
  {
    if names != [] {
      FirstMatchFinds(names[1..], regions, url);
      if exists n :: n in names && n in regions && url in regions[n] {
        var n :| n in names && n in regions && url in regions[n];
        if n != names[0] {
          assert n in names[1..];
        }
      }
    }
  }

  /** The regions left when activate, as written, deletes those whose name starts with the version. */
  function AfterActivateAsWritten(regions: map<string, map<string, Response>>): map<string, map<string, Response>>
  {
    map n | n in regions && !IsCurrent(n) :: regions[n]
  }

  /** The regions left when activate deletes those whose name does not start with the version. */
  function AfterActivate(regions: map<string, map<string, Response>>): map<string, map<string, Response>>
  {
    map n | n in regions && IsCurrent(n) :: regions[n]
  }

  /** The browser's CacheStorage: named regions, remembered in creation order. */
  class CacheStorage {
    var names: seq<string>
    var regions: map<string, map<string, Response>>

    ghost predicate Valid()
      reads this
    {
      Distinct(names) && forall n :: n in names <==> n in regions
    }

    /** The regions earlier workers left behind. */
    constructor (names: seq<string>, regions: map<string, map<string, Response>>)
      requires Distinct(names) && forall n :: n in names <==> n in regions
      ensures Valid() && this.names == names && this.regions == regions
    {
      this.names := names;
      this.regions := regions;
    }

    /** `caches.open(name)`: an absent region is created, empty, after all existing ones. */
    method Open(name: string)
      requires Valid()
      modifies this
      ensures Valid()
      ensures name in old(regions) ==> names == old(names) && regions == old(regions)
      ensures name !in old(regions) ==> names == old(names) + [name] && regions == old(regions)[name := map[]]
    {
      if name !in regions {
        names := names + [name];
        regions := regions[name := map[]];
      }
    }

    /** `cache.put(url, response)` on the named region. */
    method Put(name: string, url: string, response: Response)
      requires Valid() && name in regions
      modifies this`regions
      ensures Valid()
      ensures regions == old(regions)[name := old(regions)[name][url := response]]
    {
      regions := regions[name := regions[name][url := response]];
    }

    /**
     * `cache.addAll(urls)` on the named region, given what the network answers
     * for each URL (a missing URL is a rejected fetch): all entries land or,
     * when one fetch fails or answers outside 200-299, none does.
     */
    method AddAll(name: string, urls: seq<string>, net: map<string, Response>) returns (ok: bool)
      requires Valid() && name in regions
      modifies this`regions
      ensures Valid()
      ensures ok == forall u :: u in urls ==> u in net && OkStatus(net[u])
      ensures !ok ==> regions == old(regions)
      ensures ok ==> regions == old(regions)[name := old(regions)[name] + Fetched(urls, net)]
      ensures ok ==> regions.Keys == old(regions).Keys
      ensures ok ==> forall n :: n in regions && n != name ==> regions[n] == old(regions)[n]
      ensures ok ==> forall u :: u in regions[name] <==> u in old(regions)[name] || u in urls
      ensures ok ==> forall u :: u in urls ==> regions[name][u] == net[u]
      ensures ok ==> forall u :: u in regions[name] && u !in urls ==> regions[name][u] == old(regions)[name][u]
    {
      ok := forall u :: u in urls ==> u in net && OkStatus(net[u]);
      if ok {
        regions := regions[name := regions[name] + Fetched(urls, net)];
      }
    }

    /** `caches.match(url)`: searches the regions in creation order. */
    method Match(url: string) returns (r: Option<Response>)
      ensures r == FirstMatch(names, regions, url)
    {
      var i := 0;
      while i < |names|
        invariant 0 <= i <= |names|
        invariant FirstMatch(names, regions, url) == FirstMatch(names[i..], regions, url)
      {
        if names[i] in regions && url in regions[names[i]] {
          return Some(regions[names[i]][url]);
        }
        assert names[i..][1..] == names[i + 1..];
        i := i + 1;
      }
      r := None;
    }

    /** `caches.delete(name)`: answers whether the region existed. */
    method Delete(name: string) returns (deleted: bool)
      requires Valid()
      modifies this
      ensures Valid()
      ensures deleted == (name in old(regions))
      ensures regions == old(regions) - {name}
      ensures names == Drop(old(names), {name})
    {
      deleted := name in regions;
      names := Drop(names, {name});
      regions := regions - {name};
    }
  }

  /** The install handler: open the fundamentals region and add the whole manifest to it. */
  method Install(caches: CacheStorage, net: map<string, Response>) returns (ok: bool)
    requires caches.Valid()
    modifies caches
    ensures caches.Valid()
    ensures Fundamentals in caches.regions
    ensures ok == forall u :: u in CacheUrls ==> u in net && OkStatus(net[u])
    ensures ok ==> forall u :: u in CacheUrls ==> u in caches.regions[Fundamentals] && caches.regions[Fundamentals][u] == net[u]
    ensures var before := if Fundamentals in old(caches.regions) then old(caches.regions)[Fundamentals] else map[];
            caches.regions[Fundamentals] == if ok then before + Fetched(CacheUrls, net) else before
    ensures caches.names == if Fundamentals in old(caches.regions) then old(caches.names) else old(caches.names) + [Fundamentals]
    ensures forall n :: n != Fundamentals ==>
              (n in caches.regions <==> n in old(caches.regions)) &&
              (n in caches.regions ==> caches.regions[n] == old(caches.regions)[n])
  {
    caches.Open(Fundamentals);
    ok := caches.AddAll(Fundamentals, CacheUrls, net);
  }

  /** `fetchedFromNetwork(res)`: keep a copy in the pages region and pass the response on. */
  method FetchedFromNetwork(caches: CacheStorage, req: Request, res: Response) returns (r: Response)
    requires caches.Valid()
    modifies caches
    ensures caches.Valid()
    ensures r == res
    ensures Pages in caches.regions
    ensures caches.regions[Pages] == (if Pages in old(caches.regions) then old(caches.regions)[Pages] else map[])[req.url := res]
    ensures caches.names == if Pages in old(caches.regions) then old(caches.names) else old(caches.names) + [Pages]
    ensures forall n :: n != Pages ==>
              (n in caches.regions <==> n in old(caches.regions)) &&
              (n in caches.regions ==> caches.regions[n] == old(caches.regions)[n])
  {
    caches.Open(Pages);
    caches.Put(Pages, req.url, res);
    r := res;
  }

  /**
   * The fetch handler, given the network's outcome (`None` when the fetch
   * rejects). Non-GET requests are not intercepted. A GET is always sent to
   * the network; the reply is the cached entry if there is one, else the
   * network response, else the synthetic 503. Any network response, whatever
   * its status, is stored in the pages region.
   */
  method HandleFetch(caches: CacheStorage, req: Request, net: Option<Response>)
    returns (intercepted: bool, reply: Option<Response>)
    requires caches.Valid()
    modifies caches
    ensures caches.Valid()
    ensures intercepted == (req.verb == "GET")
    ensures !intercepted ==> reply == None
    ensures intercepted ==>
              var cached := FirstMatch(old(caches.names), old(caches.regions), req.url);
              reply == Some(if cached.Some? then cached.value
                            else if net.Some? then net.value
                            else UnableToResolve())
    ensures intercepted && net.Some? ==>
              && Pages in caches.regions
              && req.url in caches.regions[Pages]
              && caches.regions[Pages][req.url] == net.value
              && caches.regions[Pages] ==
                   (if Pages in old(caches.regions) then old(caches.regions)[Pages] else map[])[req.url := net.value]
    ensures caches.names ==
              if intercepted && net.Some? && Pages !in old(caches.regions) then old(caches.names) + [Pages]
              else old(caches.names)
    ensures forall n :: n != Pages || !intercepted || net.None? ==>
              (n in caches.regions <==> n in old(caches.regions)) &&
              (n in caches.regions ==> caches.regions[n] == old(caches.regions)[n])
  {
    if req.verb != "GET" {
      return false, None;
    }
    intercepted := true;
    var cached := caches.Match(req.url);
    var networked;
    if net.Some? {
      networked := FetchedFromNetwork(caches, req, net.value);
    } else {
      networked := UnableToResolve();
    }
    reply := Some(if cached.Some? then cached.value else networked);
  }

  /** Removing keys one more at a time is removing the union. */
  lemma RemoveMore<V>(m: map<string, V>, gone: set<string>, x: string)
    ensures m - gone - {x} == m - (gone + {x})
  {
  }

  /** Delete the listed regions one by one, as the `map(key => caches.delete(key))` does. */
  method DeleteRegions(caches: CacheStorage, doomed: seq<string>)
    requires caches.Valid()
    modifies caches
    ensures caches.Valid()
    ensures caches.regions == old(caches.regions) - Members(doomed)
    ensures caches.names == Drop(old(caches.names), Members(doomed))
  {
    var i := 0;
    ghost var gone: set<string> := {};
    DropNothing(caches.names);
    assert doomed[..0] == [];
    while i < |doomed|
      invariant 0 <= i <= |doomed|
      invariant caches.Valid()
      invariant gone == Members(doomed[..i])
      invariant caches.regions == old(caches.regions) - gone
      invariant caches.names == Drop(old(caches.names), gone)
    {
      var deleted := caches.Delete(doomed[i]);
      assert caches.names == Drop(old(caches.names), gone + {doomed[i]}) by {
        DropTwice(old(caches.names), gone, {doomed[i]});
      }
      assert caches.regions == old(caches.regions) - (gone + {doomed[i]}) by {
        RemoveMore(old(caches.regions), gone, doomed[i]);
      }
      assert Members(doomed[..i + 1]) == gone + {doomed[i]} by {
        assert doomed[..i + 1] == doomed[..i] + [doomed[i]];
        MembersAppend(doomed[..i], doomed[i]);
      }
      gone := gone + {doomed[i]};
      i := i + 1;
    }
    assert doomed[..i] == doomed;
  }

  /** The activate handler as written: the filter keeps, and so deletes, the names that start with the version. */
  method ActivateAsWritten(caches: CacheStorage)
    requires caches.Valid()
    modifies caches
    ensures caches.Valid()
    ensures caches.regions == AfterActivateAsWritten(old(caches.regions))
    ensures caches.names == Drop(old(caches.names), set n | n in old(caches.names) && IsCurrent(n))
  {
    var doomed := Select(caches.names, true);
    DeleteRegions(caches, doomed);
    assert (set n | n in doomed) == set n | n in old(caches.names) && IsCurrent(n);
  }

  /** The activate handler as its comment describes it: regions of other versions are deleted. */
  method Activate(caches: CacheStorage)
    requires caches.Valid()
    modifies caches
    ensures caches.Valid()
    ensures caches.regions == AfterActivate(old(caches.regions))
    ensures forall n :: n in caches.regions ==> IsCurrent(n)
    ensures forall n :: n in old(caches.regions) && IsCurrent(n) ==> n in caches.regions
    ensures caches.names == Drop(old(caches.names), set n | n in old(caches.names) && !IsCurrent(n))
  {
    var doomed := Select(caches.names, false);
    DeleteRegions(caches, doomed);
    assert (set n | n in doomed) == set n | n in old(caches.names) && !IsCurrent(n);
  }

  /**
   * As written, activation removes the current version's regions: a URL that
   * only current regions held (the manifest after install) is no longer in
   * the cache, so an offline request for it gets the 503.
   */
  lemma AsWrittenLosesCurrent(names: seq<string>, regions: map<string, map<string, Response>>, url: string)
    requires forall n :: n in regions && url in regions[n] ==> IsCurrent(n)
    ensures FirstMatch(Drop(names, set n | n in names && IsCurrent(n)), AfterActivateAsWritten(regions), url).None?
  {
    FirstMatchFinds(Drop(names, set n | n in names && IsCurrent(n)), AfterActivateAsWritten(regions), url);
  }

  /** As written, a previous version's region survives activation while the current install's region is deleted. */
  lemma AsWrittenCounterexample(asset: Response)
    ensures var before := map["md-0.9.0fundamentals" := map["/pad/md.js" := asset], Fundamentals := map["/pad/md.js" := asset]];
            AfterActivateAsWritten(before) == map["md-0.9.0fundamentals" := map["/pad/md.js" := asset]]
  {
    var before := map["md-0.9.0fundamentals" := map["/pad/md.js" := asset], Fundamentals := map["/pad/md.js" := asset]];
    assert !IsCurrent("md-0.9.0fundamentals") by {
      assert "md-0.9.0fundamentals"[3] != Version[3];
    }
    assert IsCurrent(Fundamentals);
    assert AfterActivateAsWritten(before).Keys == {"md-0.9.0fundamentals"};
  }

  /**
   * As written, an update serves the previous version's copy of a file: the
   * new copy is deleted with the current region, the old region is kept, and
   * `caches.match` finds the old copy. The corrected filter serves the new one.
   */
  lemma AsWrittenServesStale(stale: Response, current: Response)
    ensures var names := ["md-0.9.0fundamentals", Fundamentals];
            var before := map["md-0.9.0fundamentals" := map["/pad/md.js" := stale], Fundamentals := map["/pad/md.js" := current]];
            && FirstMatch(Drop(names, set n | n in names && IsCurrent(n)), AfterActivateAsWritten(before), "/pad/md.js") == Some(stale)
            && FirstMatch(Drop(names, set n | n in names && !IsCurrent(n)), AfterActivate(before), "/pad/md.js") == Some(current)
  {
    var names := ["md-0.9.0fundamentals", Fundamentals];
    var before := map["md-0.9.0fundamentals" := map["/pad/md.js" := stale], Fundamentals := map["/pad/md.js" := current]];
    assert !IsCurrent("md-0.9.0fundamentals") by {
      assert "md-0.9.0fundamentals"[3] != Version[3];
    }
    assert IsCurrent(Fundamentals);
    assert (set n | n in names && IsCurrent(n)) == {Fundamentals};
    assert (set n | n in names && !IsCurrent(n)) == {"md-0.9.0fundamentals"};
    assert names[1..] == [Fundamentals] && [Fundamentals][1..] == [];
    assert Drop(names, {Fundamentals}) == ["md-0.9.0fundamentals"] by {
      assert Drop([Fundamentals], {Fundamentals}) == [];
    }
    assert Drop(names, {"md-0.9.0fundamentals"}) == [Fundamentals] by {
      assert Drop([Fundamentals], {"md-0.9.0fundamentals"}) == [Fundamentals];
    }
  }

  /**
   * With the corrected filter, whatever install put in the fundamentals region
   * is still served from the cache after activation, whatever other regions exist.
   */
  lemma ManifestSurvivesActivate(names: seq<string>, regions: map<string, map<string, Response>>, url: string)
    requires forall n :: n in names <==> n in regions
    requires Fundamentals in regions && url in regions[Fundamentals]
    ensures FirstMatch(Drop(names, set n | n in names && !IsCurrent(n)), AfterActivate(regions), url).Some?
  {
    var kept := Drop(names, set n | n in names && !IsCurrent(n));
    assert IsCurrent(Fundamentals);
    assert Fundamentals in kept;
    FirstMatchFinds(kept, AfterActivate(regions), url);
  }
}
