/** The program's `main`: update the settings, pick one of the configured
    subreddits, fetch its listing, select the best picture and download it.
    The network is a pair of parameters: `fetch` gives reddit's answer for a
    listing path and `image` the image server's answer for a request. */
module Program {
  import opened Wrappers
  import opened Text
  import opened Listing
  import opened Config
  import opened Urls
  import opened Selector
  import opened Download

  /** Reddit's answer to a listing request, with its body already decoded. */
  datatype Response = Response(status: int, body: string, decoded: Json)

  /** The image server's answer. */
  datatype Reply = Reply(status: int, body: string)

  /** Why the program stops with status 1. */
  datatype Failure =
    | ConfigFailed(configError: ConfigError)
    | NoSubreddit                       // `randint(0, -1)` raises ValueError
    | FetchFailed(fetchError: FetchError)
    | InvalidEntryUrl(index: nat)       // `urlparse` raises ValueError in `get_top_rated_image`
    | DownloadFailed(downloadError: DownloadError)

  datatype Outcome =
    | Saved(written: Written)   // the image was written
    | NoImage                   // "did not find an image fitting the criteria"
    | Failed(failure: Failure)

  /** The process exit status: 0 after a download or when nothing fits,
      1 after an `exit(1)` or an uncaught exception. */
  function ExitCode(o: Outcome): (code: int)
    ensures code == 0 || code == 1
    ensures code == 0 <==> o.Saved? || o.NoImage?
  {
    if o.Failed? then 1 else 0
  }

  /** The path of the listing of `subreddit`. */
  function ListingPath(subreddit: string): string { "/r/" + subreddit + ".json" }

  /** The subreddit taken from the `\w+` tokens of the setting, `choice`
      standing for `randint`'s pick; `None` when there is no token. */
  function ChooseSubreddit(setting: string, choice: nat): (r: Option<string>)
    ensures r.None? <==> WordTokens(setting) == []
    ensures r.Some? ==> r.value in WordTokens(setting) && r.value != ""
                        && forall m :: 0 <= m < |r.value| ==> IsWordChar(r.value[m])
  {
    var tokens := WordTokens(setting);
    if tokens == [] then None else Some(tokens[choice % |tokens|])
  }

  /** `download_image(title, url)`: the request goes out only once the URL
      has been parsed. The program exits with status 0 exactly when the
      server answers 200 with a body and the path's last segment can be
      written as a file; the file then holds the body. */
  function Fetch(destination: string, url: string, image: Request -> Reply): (o: Outcome)
    ensures !o.NoImage?
    ensures o.Failed? ==> o.failure.DownloadFailed?
    ensures UrlParse(url).None? ==> o == Failed(DownloadFailed(InvalidIPv6))
    ensures ExitCode(o) == 0 <==>
              && UrlParse(url).Some?
              && var u := UrlParse(url).value;
              && image(RequestFor(u)).status == 200 && image(RequestFor(u)).body != ""
              && !NamesDirectory(FileName(u.path))
    ensures UrlParse(url).Some? ==>
              var u := UrlParse(url).value;
              var reply := image(RequestFor(u));
              && (reply.status != 200 ==> o == Failed(DownloadFailed(DownloadError.BadStatus(reply.status))))
              && (reply.status == 200 && reply.body == "" ==> o == Failed(DownloadFailed(DownloadError.EmptyBody)))
              && (o.Saved? ==> o.written == Written(RequestFor(u), JoinPath(destination, FileName(u.path)), reply.body))
  {
    match UrlParse(url)
    case None => Failed(DownloadFailed(InvalidIPv6))
    case Some(u) =>
      var reply := image(RequestFor(u));
      match DownloadImage(destination, url, reply.status, reply.body)
      case Failure(e) => Failed(DownloadFailed(e))
      case Success(w) => Saved(w)
  }

  /** The listing `main` selects from, once the settings are loaded and a
      subreddit is chosen. */
  function Listed(l: Loaded, choice: nat, fetch: string -> Response): Result<seq<Entry>, Failure>
  {
    match ChooseSubreddit(l.settings.subreddit, choice)
    case None => Failure(NoSubreddit)
    case Some(subreddit) =>
      var resp := fetch(ListingPath(subreddit));
      match FetchListing(resp.status, resp.body, resp.decoded)
      case Failure(e) => Failure(FetchFailed(e))
      case Success(entries) => Success(entries)
  }

  /** `main()`, starting from the settings `defaults` and the settings file
      `file` (absent when there is none). */
  function Run(defaults: Settings, file: Option<string>, choice: nat,
               fetch: string -> Response, image: Request -> Reply): Outcome
  {
    match Load(defaults, file)
    case Failure(e) => Failed(ConfigFailed(e))
    case Success(l) =>
      match Listed(l, choice, fetch)
      case Failure(f) => Failed(f)
      case Success(entries) =>
        match FirstRaising(entries)
        case Some(k) => Failed(InvalidEntryUrl(k))
        case None =>
          var (title, url) := Picked(entries, l.settings);
          if title == "" || url == "" then NoImage
          else Fetch(l.settings.destination, url, image)
  }

  /** A saved image comes from the entry the selector picked: an eligible
      entry with a title, whose URL's last path segment names the file in
      the destination directory. */
  lemma SavedImageWasPicked(defaults: Settings, file: Option<string>, choice: nat,
                            fetch: string -> Response, image: Request -> Reply)
    requires Run(defaults, file, choice, fetch, image).Saved?
    ensures Load(defaults, file).Success?
    ensures var l := Load(defaults, file).value;
            && Listed(l, choice, fetch).Success?
            && var entries := Listed(l, choice, fetch).value;
            && FirstRaising(entries).None?
            && Scan(entries, l.settings).index.Some?
            && var e := entries[Scan(entries, l.settings).index.value];
            && Eligible(e, l.settings) && e.title != ""
            && var name := FileName(UrlParse(e.url).value.path);
            && Run(defaults, file, choice, fetch, image).written.file == JoinPath(l.settings.destination, name)
            && !NamesDirectory(name) && '/' !in name
  {
    var l := Load(defaults, file).value;
    var entries := Listed(l, choice, fetch).value;
    ScanPicksLastBest(entries, l.settings);
    var e := entries[Scan(entries, l.settings).index.value];
    var reply := image(RequestFor(UrlParse(e.url).value));
    WrittenNameIsPlain(l.settings.destination, e.url, reply.status, reply.body);
  }

  /** When no entry passes the filters the program stops with status 0 and
      downloads nothing, provided every URL it parses can be parsed. */
  lemma NothingFitsExitsCleanly(defaults: Settings, file: Option<string>, choice: nat,
                                fetch: string -> Response, image: Request -> Reply)
    requires Load(defaults, file).Success?
    requires var l := Load(defaults, file).value;
             Listed(l, choice, fetch).Success?
             && forall e :: e in Listed(l, choice, fetch).value ==> !Eligible(e, l.settings)
    ensures var entries := Listed(Load(defaults, file).value, choice, fetch).value;
            FirstRaising(entries).None? ==>
              && Run(defaults, file, choice, fetch, image) == NoImage
              && ExitCode(Run(defaults, file, choice, fetch, image)) == 0
  {
    var l := Load(defaults, file).value;
    var entries := Listed(l, choice, fetch).value;
    ScanPicksLastBest(entries, l.settings);
    assert forall j :: 0 <= j < |entries| ==> entries[j] in entries;
  }

  /** An entry picked with an empty title is not downloaded although it
      passed every filter: `main` treats it as no candidate at all and stops
      with status 0. */
  lemma EmptyTitleDownloadsNothing(defaults: Settings, file: Option<string>, choice: nat,
                                   fetch: string -> Response, image: Request -> Reply)
    requires Load(defaults, file).Success?
    requires var l := Load(defaults, file).value;
             && Listed(l, choice, fetch).Success?
             && var entries := Listed(l, choice, fetch).value;
             && Scan(entries, l.settings).index.Some?
             && entries[Scan(entries, l.settings).index.value].title == ""
    ensures var entries := Listed(Load(defaults, file).value, choice, fetch).value;
            FirstRaising(entries).None? ==>
              && Run(defaults, file, choice, fetch, image) == NoImage
              && ExitCode(Run(defaults, file, choice, fetch, image)) == 0
  {
  }

  /** An entry that is not a self post and whose URL `urlparse` rejects
      stops the program with status 1, whatever came before it in the
      listing: nothing is downloaded. */
  lemma UnparsableUrlFails(defaults: Settings, file: Option<string>, choice: nat,
                           fetch: string -> Response, image: Request -> Reply, j: nat)
    requires Load(defaults, file).Success?
    requires var l := Load(defaults, file).value;
             && Listed(l, choice, fetch).Success?
             && j < |Listed(l, choice, fetch).value|
             && UrlRaises(Listed(l, choice, fetch).value[j])
    ensures var entries := Listed(Load(defaults, file).value, choice, fetch).value;
            && FirstRaising(entries).Some? && FirstRaising(entries).value <= j
            && Run(defaults, file, choice, fetch, image) == Failed(InvalidEntryUrl(FirstRaising(entries).value))
            && ExitCode(Run(defaults, file, choice, fetch, image)) == 1
  {
    var entries := Listed(Load(defaults, file).value, choice, fetch).value;
    FirstRaisingIsFirst(entries);
  }

  /** `main()` on the settings store, the selection made by the loop. */
  method Execute(store: SettingsStore, choice: nat, fetch: string -> Response, image: Request -> Reply)
    returns (o: Outcome)
    modifies store
    ensures o == Run(old(store.settings), old(store.file), choice, fetch, image)
    ensures Load(old(store.settings), old(store.file)).Success? ==>
              var l := Load(old(store.settings), old(store.file)).value;
              store.settings == l.settings && store.file == Some(l.file)
    ensures Load(old(store.settings), old(store.file)).Failure? ==>
              var (subreddit, appended) := LoadText(old(store.file).value, "subreddit", old(store.settings).subreddit);
              && store.settings.subreddit == subreddit && store.settings.destination == old(store.settings).destination
              && store.file == Some(old(store.file).value + appended)
  {
    var err := store.UpdateSettings();
    if err.Some? {
      return Failed(ConfigFailed(err.value));
    }
    var subreddit := ChooseSubreddit(store.settings.subreddit, choice);
    if subreddit.None? {
      return Failed(NoSubreddit);
    }
    var resp := fetch(ListingPath(subreddit.value));
    var listing := FetchListing(resp.status, resp.body, resp.decoded);
    if listing.Failure? {
      return Failed(FetchFailed(listing.error));
    }
    var selected := GetTopRatedImage(listing.value, store.settings);
    if selected.Failure? {
      return Failed(InvalidEntryUrl(selected.error));
    }
    var (title, url) := selected.value;
    if title == "" || url == "" {
      return NoImage;
    }
    o := Fetch(store.settings.destination, url, image);
  }
}
