/**
 * The sync engine: turning a raw listing into the store's record, and the
 * loop that fetches each configured page of the data endpoint and upserts
 * its listings. The HTTP client is a fetcher passed in, a total function from
 * URL to outcome; storage failures are an oracle indexed by page number and
 * position within the page.
 */
module Scraper {
  import opened Wrappers
  import Config
  import Text
  import Utils
  import Database

  const Company: string := "autoscout24"
  const UnknownMake: string := "Unknown make"
  const UnknownModel: string := "Unknown model"
  const NoImage: string := "Image not available"
  const UnknownTransmission: string := "Unknown"
  const PageMarker: string := "page=1"

  /** The `vehicle` object of a raw listing. */
  datatype RawVehicle = RawVehicle(
    make: Option<string>,
    model: Option<string>,
    modelVersionInput: Option<string>)

  /** One element of `pageProps.listings`; `None` is a missing key. */
  datatype RawListing = RawListing(
    id: Option<string>,
    vehicle: Option<RawVehicle>,
    price: Option<Utils.PriceObject>,
    images: Option<seq<string>>,
    url: Option<string>,
    vehicleDetails: Option<seq<Utils.Detail>>)

  // ---------------------------------------------------------------------------
  // Listing normalisation
  // ---------------------------------------------------------------------------

  /** "make model version" with the defaults filled in and outer whitespace stripped. */
  function Title(v: RawVehicle): (r: string)
    ensures r == [] || Text.Clean(r)
  {
    Text.Strip(v.make.GetOr(UnknownMake) + " " + v.model.GetOr(UnknownModel) + " " + v.modelVersionInput.GetOr(""))
  }

  /** The listing's detail entries; a missing array is an empty one. */
  function DetailsOf(l: RawListing): seq<Utils.Detail> {
    l.vehicleDetails.GetOr([])
  }

  /**
   * `_parse_listing`: a listing without an `id` raises (and is skipped by the
   * caller); any other listing becomes a record whose `Company` is the fixed
   * site name, whose image is the first image or the placeholder, and whose
   * transmission is the `transmission` feature or "Unknown".
   */
  function ParseListing(l: RawListing): (r: Option<Database.CarInfo>)
    ensures r.None? <==> l.id.None?
    ensures r.Some? ==> r.value.id == l.id.value && r.value.company == Company
    ensures r.Some? ==> r.value.modelAndMake == Title(l.vehicle.GetOr(RawVehicle(None, None, None)))
    ensures r.Some? ==> r.value.price == Utils.FormatPrice(l.price)
    ensures r.Some? ==>
      r.value.image == if l.images.Some? && l.images.value != [] then l.images.value[0] else NoImage
    ensures r.Some? ==> r.value.link == Utils.BuildCarUrl(l.url.GetOr(""))
    ensures r.Some? ==> r.value.features == Utils.FeaturesOf(DetailsOf(l))
    ensures r.Some? ==> r.value.features.Keys == Utils.IconNames(DetailsOf(l))
    ensures r.Some? ==>
      r.value.transmission == if "transmission" in r.value.features then r.value.features["transmission"] else UnknownTransmission
  {
    if l.id.None? then None
    else
      var vehicle := l.vehicle.GetOr(RawVehicle(None, None, None));
      var images := l.images.GetOr([]);
      var features := Utils.FeaturesOf(DetailsOf(l));
      Utils.FeatureKeys(DetailsOf(l));
      Some(Database.CarInfo(
        id := l.id.value,
        image := if images != [] then images[0] else NoImage,
        modelAndMake := Title(vehicle),
        link := Utils.BuildCarUrl(l.url.GetOr("")),
        price := Utils.FormatPrice(l.price),
        company := Company,
        features := features,
        transmission := if "transmission" in features then features["transmission"] else UnknownTransmission))
  }

  /** Without a vehicle object the title is the two defaults joined, with no trailing space. */
  lemma TitleDefaults()
    ensures Title(RawVehicle(None, None, None)) == "Unknown make Unknown model"
  {
    var s := "Unknown make Unknown model";
    assert Text.Clean(s);
    assert UnknownMake + " " + UnknownModel + " " + "" == s + " ";
    Text.StripTrailingSpace(s);
  }

  /** An absent version leaves no trailing space: the title is "make model". */
  lemma TitleWithoutVersion(v: RawVehicle)
    requires v.modelVersionInput.None?
    requires Text.Clean(v.make.GetOr(UnknownMake)) && Text.Clean(v.model.GetOr(UnknownModel))
    ensures Title(v) == v.make.GetOr(UnknownMake) + " " + v.model.GetOr(UnknownModel)
  {
    var s := v.make.GetOr(UnknownMake) + " " + v.model.GetOr(UnknownModel);
    assert Text.Clean(s);
    assert s + " " + "" == s + " ";
    Text.StripTrailingSpace(s);
  }

  /** With all three parts present and free of outer whitespace, the title is "make model version". */
  lemma TitleWithVersion(v: RawVehicle)
    requires v.modelVersionInput.Some? && Text.Clean(v.modelVersionInput.value)
    requires Text.Clean(v.make.GetOr(UnknownMake))
    ensures Title(v) == v.make.GetOr(UnknownMake) + " " + v.model.GetOr(UnknownModel) + " " + v.modelVersionInput.value
  {
    var s := v.make.GetOr(UnknownMake) + " " + v.model.GetOr(UnknownModel) + " " + v.modelVersionInput.value;
    assert s[0] == v.make.GetOr(UnknownMake)[0];
    assert s[|s| - 1] == v.modelVersionInput.value[|v.modelVersionInput.value| - 1];
    Text.StripKeepsClean(s);
  }

  /**
   * The transmission of a parsed listing comes from the last detail entry
   * whose icon name is "transmission", and is "Unknown" when there is none.
   */
  lemma TransmissionFromDetails(l: RawListing)
    requires l.id.Some?
    ensures var ds := DetailsOf(l);
      (forall j :: 0 <= j < |ds| ==> ds[j].iconName != Some("transmission"))
      ==> ParseListing(l).value.transmission == UnknownTransmission
    ensures var ds := DetailsOf(l);
      forall i ::
        (0 <= i < |ds| && ds[i].iconName == Some("transmission") &&
         (forall j :: i < j < |ds| ==> ds[j].iconName != Some("transmission")))
        ==> ParseListing(l).value.transmission == Utils.DetailValue(ds[i])
  {
    var ds := DetailsOf(l);
    Utils.FeatureKeys(ds);
    forall i | 0 <= i < |ds| && ds[i].iconName == Some("transmission") &&
      (forall j :: i < j < |ds| ==> ds[j].iconName != Some("transmission"))
      ensures ParseListing(l).value.transmission == Utils.DetailValue(ds[i])
    {
      Utils.FeatureLastWins(ds, i);
    }
  }

  // ---------------------------------------------------------------------------
  // Requests
  // ---------------------------------------------------------------------------

  /** `_get_random_headers`: a User-Agent header drawn from the configured pool. */
  method GetRandomHeaders() returns (headers: map<string, string>)
    ensures headers.Keys == {"User-Agent"}
    ensures headers["User-Agent"] in Config.UserAgents
  {
    var i :| 0 <= i < |Config.UserAgents|;
    headers := map["User-Agent" := Config.UserAgents[i]];
  }

  /** The URL of one result page: every "page=1" in the endpoint URL becomes "page=N". */
  function PageUrl(jsonUrl: string, page: int): string {
    Text.Replace(jsonUrl, PageMarker, "page=" + Text.IntToDecimal(page))
  }

  /** Page 1 is fetched from the endpoint URL itself. */
  lemma PageUrlFirstPage(jsonUrl: string)
    ensures PageUrl(jsonUrl, 1) == jsonUrl
  {
    assert "page=" + Text.IntToDecimal(1) == PageMarker;
    Text.ReplaceSelf(jsonUrl, PageMarker);
  }

  /** Without "page=1" in the endpoint URL, every page fetches that same URL. */
  lemma PageUrlWithoutMarker(jsonUrl: string, page: int)
    requires !Text.Occurs(jsonUrl, PageMarker)
    ensures PageUrl(jsonUrl, page) == jsonUrl
  {
    Text.ReplaceAbsent(jsonUrl, PageMarker, "page=" + Text.IntToDecimal(page));
  }

  /**
   * An endpoint URL with exactly one "page=1" fetches page N from the same URL
   * with that occurrence turned into "page=N".
   */
  lemma PageUrlOneMarker(pre: string, post: string, page: int)
    requires forall k :: 0 <= k < |pre| ==> !Text.OccursAt(pre + PageMarker + post, PageMarker, k)
    requires !Text.Occurs(post, PageMarker)
    ensures PageUrl(pre + PageMarker + post, page) == pre + "page=" + Text.IntToDecimal(page) + post
  {
    var u := pre + PageMarker + post;
    var rep := "page=" + Text.IntToDecimal(page);
    ConcatSlices(pre, PageMarker, post);
    Text.ReplaceFirst(u, PageMarker, rep, |pre|);
    Text.ReplaceAbsent(post, PageMarker, rep);
    ReplacedJoin(Text.Replace(u, PageMarker, rep), pre, rep, post, "page=", Text.IntToDecimal(page));
  }

  /** Where the three parts of `pre + m + post` sit. */
  lemma ConcatSlices<T>(pre: seq<T>, m: seq<T>, post: seq<T>)
    ensures (pre + m + post)[..|pre|] == pre
    ensures (pre + m + post)[|pre|..|pre| + |m|] == m
    ensures (pre + m + post)[|pre| + |m|..] == post
  {
  }

  /** Regrouping `pre + (x + y) + post`. */
  lemma ReplacedJoin<T>(a: seq<T>, pre: seq<T>, rep: seq<T>, post: seq<T>, x: seq<T>, y: seq<T>)
    requires a == pre + rep + post && rep == x + y
    ensures a == pre + x + y + post
  {
  }

  /** The second page of a typical endpoint URL. */
  lemma PageUrlSecondPage()
    ensures PageUrl("lst.json?page=1&sort=age", 2) == "lst.json?page=2&sort=age"
  {
    var pre, post := "lst.json?", "&sort=age";
    SecondPageParts(pre, post);
    PageUrlOneMarker(pre, post, 2);
    assert Text.IntToDecimal(2) == "2";
    assert pre + "page=" + "2" + post == "lst.json?page=2&sort=age";
  }

  /** The marker sits right after "lst.json?", and nowhere else in the URL. */
  lemma SecondPageParts(pre: string, post: string)
    requires pre == "lst.json?" && post == "&sort=age"
    ensures pre + PageMarker + post == "lst.json?page=1&sort=age"
    ensures forall k :: 0 <= k < |pre| ==> !Text.OccursAt(pre + PageMarker + post, PageMarker, k)
    ensures !Text.Occurs(post, PageMarker)
  {
    MarkerNotAt(pre + PageMarker + post, |pre|);
    MarkerNotAt(post, |post|);
    assert !Text.OccursAt(post, PageMarker, |post|);
  }

  /** The marker cannot start at a position that does not hold a 'p'. */
  lemma MarkerNotAt(u: string, n: nat)
    requires n <= |u| && forall k :: 0 <= k < n ==> u[k] != 'p'
    ensures forall k :: 0 <= k < n ==> !Text.OccursAt(u, PageMarker, k)
  {
    forall k | 0 <= k < n
      ensures !Text.OccursAt(u, PageMarker, k)
    {
      if k + |PageMarker| <= |u| {
        assert u[k..k + |PageMarker|][0] == u[k];
      }
    }
  }

  /** `pageProps` as found in the response body. */
  datatype PageProps = PropsNonObject | PropsObject(listings: Option<seq<RawListing>>)

  /** What `response.json()` yields. */
  datatype Body = NotJson | JsonNonObject | JsonObject(pageProps: Option<PageProps>)

  /** The outcome of one GET: a transport failure or a response with a status and a body. */
  datatype FetchResult = TransportError | Response(status: int, body: Body)

  /**
   * The listings of one fetched page, or `None` for a page-level failure:
   * a transport error, a 4xx/5xx status (`raise_for_status`), a body that is
   * not JSON, or a JSON value on which `.get` fails. A missing `pageProps` or
   * `listings` key gives an empty page.
   */
  function PageListings(f: FetchResult): (r: Option<seq<RawListing>>)
    ensures r.None? <==>
      || f.TransportError?
      || 400 <= f.status < 600
      || !f.body.JsonObject?
      || f.body.pageProps == Some(PropsNonObject)
    ensures
      (f.Response? && !(400 <= f.status < 600) && f.body.JsonObject? &&
       (f.body.pageProps.None? || f.body.pageProps == Some(PropsObject(None))))
      ==> r == Some([])
    ensures
      (f.Response? && !(400 <= f.status < 600) && f.body.JsonObject? &&
       f.body.pageProps.Some? && f.body.pageProps.value.PropsObject? &&
       f.body.pageProps.value.listings.Some?)
      ==> r == Some(f.body.pageProps.value.listings.value)
  {
    match f
    case TransportError => None
    case Response(status, body) =>
      if 400 <= status < 600 then None
      else
        match body
        case NotJson => None
        case JsonNonObject => None
        case JsonObject(None) => Some([])
        case JsonObject(Some(PropsNonObject)) => None
        case JsonObject(Some(PropsObject(listings))) => Some(listings.GetOr([]))
  }

  // ---------------------------------------------------------------------------
  // The sync loop, as a specification
  // ---------------------------------------------------------------------------

  /** The store and the running count of new listings. */
  datatype Tally = Tally(rows: Database.Table, newCars: nat)

  /** The state after the loop over pages: `failed` when some page aborted it. */
  datatype SyncState = SyncState(rows: Database.Table, newCars: nat, failed: bool)

  /** No storage call of the sync fails. */
  ghost predicate NoStorageFaults(fault: (int, nat) -> bool) {
    forall page, pos :: !fault(page, pos)
  }

  /** One listing: skipped if it does not parse or its upsert fails, else upserted and counted when new. */
  function ListingStep(t: Tally, l: RawListing, page: int, pos: nat, fault: (int, nat) -> bool, now: int): Tally {
    match ParseListing(l)
    case None => t
    case Some(car) =>
      if fault(page, pos) then t
      else Tally(Database.Upsert(t.rows, car, now), if car.id in t.rows then t.newCars else t.newCars + 1)
  }

  /** The listings of one page, processed in order. */
  function ProcessListings(t: Tally, ls: seq<RawListing>, page: int, fault: (int, nat) -> bool, now: int): Tally
    decreases |ls|
  {
    if ls == [] then t
    else ListingStep(ProcessListings(t, ls[..|ls| - 1], page, fault, now), ls[|ls| - 1], page, |ls| - 1, fault, now)
  }

  /** The fetcher as the loop uses it: page number to the outcome of fetching that page's URL. */
  function PageFetcher(jsonUrl: string, fetch: string -> FetchResult): int -> FetchResult {
    page => fetch(PageUrl(jsonUrl, page))
  }

  /** One page: once the sync has failed nothing more happens; a failing page fails it; else its listings are processed. */
  function PageStep(s: SyncState, page: int, fetchPage: int -> FetchResult, fault: (int, nat) -> bool, now: int): SyncState {
    if s.failed then s
    else
      match PageListings(fetchPage(page))
      case None => SyncState(s.rows, s.newCars, true)
      case Some(ls) =>
        var t := ProcessListings(Tally(s.rows, s.newCars), ls, page, fault, now);
        SyncState(t.rows, t.newCars, false)
  }

  /** The pages, fetched and processed in order; the first page-level failure stops the loop. */
  function SyncPages(rows: Database.Table, pages: seq<int>, fetchPage: int -> FetchResult,
                     fault: (int, nat) -> bool, now: int): SyncState
    decreases |pages|
  {
    if pages == [] then SyncState(rows, 0, false)
    else PageStep(SyncPages(rows, pages[..|pages| - 1], fetchPage, fault, now), pages[|pages| - 1], fetchPage, fault, now)
  }

  /** Processing one more listing is one more step. */
  lemma ProcessListingsSnoc(t: Tally, ls: seq<RawListing>, j: int, page: int, fault: (int, nat) -> bool, now: int)
    requires 0 <= j < |ls|
    ensures ProcessListings(t, ls[..j + 1], page, fault, now) ==
      ListingStep(ProcessListings(t, ls[..j], page, fault, now), ls[j], page, j, fault, now)
  {
    assert ls[..j + 1][..j] == ls[..j];
  }

  /** Syncing one more page is one more step. */
  lemma SyncPagesSnoc(rows: Database.Table, pages: seq<int>, i: int, fetchPage: int -> FetchResult,
                      fault: (int, nat) -> bool, now: int)
    requires 0 <= i < |pages|
    ensures SyncPages(rows, pages[..i + 1], fetchPage, fault, now) ==
      PageStep(SyncPages(rows, pages[..i], fetchPage, fault, now), pages[i], fetchPage, fault, now)
  {
    assert pages[..i + 1][..i] == pages[..i];
  }

  /** What `scrape_listings` returns for a final state. */
  function SyncResult(s: SyncState): nat {
    if s.failed then 0 else s.newCars
  }

  // ---------------------------------------------------------------------------
  // The sync loop, as the program runs it
  // ---------------------------------------------------------------------------

  /**
   * One pass of the inner loop of `scrape_listings`: the listing is parsed;
   * if it parses it is upserted, and the count goes up when the store
   * reports it new.
   */
  method UpsertListing(db: Database.DatabaseManager, l: RawListing, pageNum: int, pos: nat,
                       fault: (int, nat) -> bool, now: int, count: nat) returns (newCarCount: nat)
    requires db.Valid()
    modifies db
    ensures db.Valid()
    ensures ListingStep(Tally(old(db.rows), count), l, pageNum, pos, fault, now) == Tally(db.rows, newCarCount)
  {
    newCarCount := count;
    var car := ParseListing(l);
    if car.Some? {
      var isNew := db.InsertCar(car.value, now, fault(pageNum, pos));
      if isNew {
        newCarCount := newCarCount + 1;
      }
    }
  }

  /**
   * The inner loop of `scrape_listings` over one page's listings: a listing
   * that does not parse is skipped; every other one is upserted and counted
   * when the store reports it new.
   */
  method UpsertListings(db: Database.DatabaseManager, ls: seq<RawListing>, pageNum: int,
                        fault: (int, nat) -> bool, now: int, count: nat) returns (newCarCount: nat)
    requires db.Valid()
    modifies db
    ensures db.Valid()
    ensures ProcessListings(Tally(old(db.rows), count), ls, pageNum, fault, now) == Tally(db.rows, newCarCount)
  {
    ghost var start := Tally(db.rows, count);
    newCarCount := count;
    var j := 0;
    while j < |ls|
      invariant 0 <= j <= |ls|
      invariant db.Valid()
      invariant ProcessListings(start, ls[..j], pageNum, fault, now) == Tally(db.rows, newCarCount)
    {
      ProcessListingsSnoc(start, ls, j, pageNum, fault, now);
      newCarCount := UpsertListing(db, ls[j], pageNum, j, fault, now, newCarCount);
      j := j + 1;
    }
    assert ls[..|ls|] == ls;
  }

  /**
   * `scrape_listings`: for each configured page, fetch it, then parse and
   * upsert its listings one by one, counting the new ones. A page-level
   * failure returns 0 at once, leaving earlier upserts in the store.
   */
  method ScrapeListings(db: Database.DatabaseManager, jsonUrl: string, fetch: string -> FetchResult,
                        fault: (int, nat) -> bool, now: int) returns (newCarCount: nat)
    requires db.Valid()
    modifies db
    ensures db.Valid()
    ensures var s := SyncPages(old(db.rows), Config.PagesToScrape, PageFetcher(jsonUrl, fetch), fault, now);
      db.rows == s.rows && newCarCount == SyncResult(s)
  {
    var pages := Config.PagesToScrape;
    ghost var rows0 := db.rows;
    newCarCount := 0;
    var i := 0;
    while i < |pages|
      invariant 0 <= i <= |pages|
      invariant db.Valid()
      invariant SyncPages(rows0, pages[..i], PageFetcher(jsonUrl, fetch), fault, now) == SyncState(db.rows, newCarCount, false)
    {
      var pageNum := pages[i];
      var pagedUrl := PageUrl(jsonUrl, pageNum);
      var listings := PageListings(fetch(pagedUrl));
      SyncPagesSnoc(rows0, pages, i, PageFetcher(jsonUrl, fetch), fault, now);
      assert PageFetcher(jsonUrl, fetch)(pageNum) == fetch(pagedUrl);
      if listings.None? {
        FailureSticks(rows0, pages, PageFetcher(jsonUrl, fetch), fault, now, i + 1);
        return 0;
      }
      newCarCount := UpsertListings(db, listings.value, pageNum, fault, now, newCarCount);
      i := i + 1;
    }
    assert pages[..|pages|] == pages;
  }

  // ---------------------------------------------------------------------------
  // Properties of the sync
  // ---------------------------------------------------------------------------

  /** Once a page has failed, the later pages change nothing: the store keeps what earlier pages wrote. */
  lemma {:induction false} FailureSticks(rows: Database.Table, pages: seq<int>,
                                         fetchPage: int -> FetchResult, fault: (int, nat) -> bool, now: int, k: nat)
    requires k <= |pages|
    requires SyncPages(rows, pages[..k], fetchPage, fault, now).failed
    ensures SyncPages(rows, pages, fetchPage, fault, now) == SyncPages(rows, pages[..k], fetchPage, fault, now)
    decreases |pages|
  {
    if k < |pages| {
      var init := pages[..|pages| - 1];
      assert init[..k] == pages[..k];
      FailureSticks(rows, init, fetchPage, fault, now, k);
    } else {
      assert pages[..k] == pages;
    }
  }
}
