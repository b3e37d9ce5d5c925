/** The part of `download_image` that is not I/O: the host and path it
    asks for, the answers that make it stop, and the file it writes (the
    text after the last `/` of the URL's path, in the destination
    directory). */
module Download {
  import opened Wrappers
  import opened Text
  import opened Urls

  datatype DownloadError =
    | InvalidIPv6           // `urlparse` raises ValueError on an unbalanced `[` or `]`
    | BadStatus(status: int)
    | EmptyBody
    | NoFileName            // `open` raises IOError: the joined path names a directory

  /** The request `download_image` sends: the host and the path, where
      `httplib` asks for `/` when the path is empty. */
  datatype Request = Request(host: string, target: string)

  function RequestFor(u: Url): (r: Request)
    ensures r.host == u.netloc
    ensures r.target != ""
    ensures u.path != "" ==> r.target == u.path
    ensures u.path == "" ==> r.target == "/"
  {
    Request(u.netloc, if u.path == "" then "/" else u.path)
  }

  /** What `download_image` writes: the response body, under the path's file
      name in the destination directory. */
  datatype Written = Written(request: Request, file: string, data: string)

  /** A file name that `open(..., 'wb')` cannot write, joined to any
      directory: empty (a path ending in `/`, or no path) leaves the
      directory itself, and `.` and `..` name directories too; each makes
      `open` raise IOError. */
  predicate NamesDirectory(name: string) { name == "" || name == "." || name == ".." }

  /** `download_image(title, url)` with the server's answer to the request
      (`status`, `body`) as parameters. */
  function DownloadImage(destination: string, url: string, status: int, body: string): (r: Result<Written, DownloadError>)
    ensures UrlParse(url).None? ==> r == Failure(InvalidIPv6)
    ensures UrlParse(url).Some? && status != 200 ==> r == Failure(BadStatus(status))
    ensures UrlParse(url).Some? && status == 200 && body == "" ==> r == Failure(EmptyBody)
    ensures UrlParse(url).Some? && status == 200 && body != "" && NamesDirectory(FileName(UrlParse(url).value.path))
            ==> r == Failure(NoFileName)
    ensures r.Success? ==> UrlParse(url).Some? && status == 200 && body != ""
                           && r.value.request == RequestFor(UrlParse(url).value) && r.value.data == body
                           && !NamesDirectory(FileName(UrlParse(url).value.path))
                           && r.value.file == JoinPath(destination, FileName(UrlParse(url).value.path))
  {
    match UrlParse(url)
    case None => Failure(InvalidIPv6)
    case Some(u) =>
      if status != 200 then Failure(BadStatus(status))
      else if body == "" then Failure(EmptyBody)
      else if NamesDirectory(FileName(u.path)) then Failure(NoFileName)
      else Success(Written(RequestFor(u), JoinPath(destination, FileName(u.path)), body))
  }

  /** A file name holding no `/`, joined to the destination, is the last
      segment of the path written: the file sits directly in the
      destination directory, after the directory and a `/` where one is
      needed. */
  lemma JoinedNameIsLastSegment(destination: string, name: string)
    requires '/' !in name
    ensures FileName(JoinPath(destination, name)) == name
    ensures var dir := JoinPath(destination, name)[..|JoinPath(destination, name)| - |name|];
            dir == destination || dir == destination + "/"
  {
    var r := JoinPath(destination, name);
    assert !StartsWith(name, "/") by {
      if |name| > 0 { assert name[0] in name; }
    }
    var k := |r| - |name|;
    if destination == "" {
      assert r == name;
    } else if EndsWith(destination, "/") {
      assert r == destination + name;
      assert r[k - 1] == destination[|destination| - 1..][0];
    } else {
      assert r == destination + "/" + name;
      assert r[k - 1] == '/';
    }
    assert r[k..] == name;
    forall m | k <= m < |r| ensures r[m] != '/' {
      assert r[m] == name[m - k];
    }
    LastSlashEndUnique(r, k);
  }

  /** The file written from an `http` URL sits directly in the destination
      directory: its name is not empty, `.` or `..`, holds no `/`, `?`, `#` or `;`, and
      is the last segment of the path written. */
  lemma WrittenNameIsPlain(destination: string, url: string, status: int, body: string)
    requires IsHttp(url)
    requires DownloadImage(destination, url, status, body).Success?
    ensures var name := FileName(UrlParse(url).value.path);
            && DownloadImage(destination, url, status, body).value.file == JoinPath(destination, name)
            && !NamesDirectory(name) && '/' !in name && '?' !in name && '#' !in name && ';' !in name
            && FileName(DownloadImage(destination, url, status, body).value.file) == name
  {
    var path := UrlParse(url).value.path;
    var name := FileName(path);
    assert DownloadImage(destination, url, status, body).value.file == JoinPath(destination, name);
    HttpFileNameIsPlain(url);
    JoinedNameIsLastSegment(destination, name);
  }

  /** `http://x.jpg` names no path: the image is asked for as `/`, and
      with no file name to write it under, the download fails. */
  lemma NoPathNoFileName(destination: string, status: int, body: string)
    requires status == 200 && body != ""
    ensures var u := Url("http", "x.jpg", "", "", "", "");
            UrlParse("http://x.jpg") == Some(u) && RequestFor(u) == Request("x.jpg", "/")
    ensures DownloadImage(destination, "http://x.jpg", status, body) == Failure(NoFileName)
  {
    var url := "http://x.jpg";
    assert url == "http://" + "x.jpg" + "";
    assert "x.jpg"[0] == 'x' && "x.jpg"[1] == '.' && "x.jpg"[2] == 'j' && "x.jpg"[3] == 'p' && "x.jpg"[4] == 'g';
    PlainHttpUrl("x.jpg", "");
    assert FileName("") == "";
  }

  /** `http://x/..` ends in the segment `..`, which names the directory
      above the destination: nothing is written. */
  lemma DotDotPathNoFileName(destination: string, status: int, body: string)
    requires status == 200 && body != ""
    ensures var u := Url("http", "x", "/..", "", "", "");
            UrlParse("http://x/..") == Some(u) && FileName(u.path) == ".."
    ensures DownloadImage(destination, "http://x/..", status, body) == Failure(NoFileName)
  {
    var path := "/..";
    assert "http://x/.." == "http://" + "x" + path;
    assert path[0] == '/' && path[1] == '.' && path[2] == '.';
    PlainHttpUrl("x", path);
    DotDotSegment(path);
  }

  lemma DotDotSegment(path: string)
    requires path == "/.."
    ensures FileName(path) == ".."
  {
    assert path[1] == '.' && path[2] == '.';
    LastSlashEndUnique(path, 1);
    assert path[1..] == "..";
  }
}
