/** The download cache of downloader.py: a map from URL to its staging file, None while the
    download is in progress; a download claims its URL, fetches it with escalating timeouts,
    records the staging path and installs it by hard link, or by copy when linking fails. */
module Download {
  import opened Wrappers

  type Url = string
  type Path = string

  /** The timeouts, in seconds, of the successive fetch attempts. */
  const Timeouts: seq<nat> := [1, 2, 3, 5, 7]

  /** What one `urlopen` attempt, with the body written to the staging file, gives: success,
      URLError or socket.timeout, each error with its text str(err). */
  datatype Attempt = Fetched | UrlError(reason: string) | SocketTimeout(reason: string)

  /** The text of the URLError raised after the last attempt fails. */
  function FailureMessage(url: Url, a: Attempt): (m: string)
    requires !a.Fetched?
  {
    "while downloading " + url + ": " + a.reason
  }

  /** The failure message names the URL right after its fixed prefix. */
  lemma FailureMessageNamesUrl(url: Url, a: Attempt)
    requires !a.Fetched?
    ensures var m := FailureMessage(url, a);
      |m| >= 18 + |url| && m[..18] == "while downloading " && m[18..18 + |url|] == url
  {
    var m := FailureMessage(url, a);
    assert m == "while downloading " + (url + (": " + a.reason));
  }

  /** The fetch loop: an attempt succeeds, or fails with its own error, which is raised only
      when the timeout was 7. */
  datatype FetchResult = Success | Failure(message: string)

  /** How the staged file reached its destination. */
  datatype Installation = HardLink(source: Path, destination: Path) | Copied(source: Path, destination: Path)

  /** The result of one `download` call. */
  datatype Outcome =
    | Cancelled                                  // the cancellation hook raised
    | Blocked                                    // waiting on a download that never completes
    | FetchFailed(message: string)               // the URLError of the last attempt
    | Installed(installation: Installation)
    | InstallFailed(source: Path, destination: Path) // both link and copy2 raised OSError

  /** link(source, destination), and copy2 only when the link raises OSError. */
  function Install(source: Path, destination: Path, linkOk: bool, copyOk: bool): (o: Outcome)
    ensures o.Installed? <==> linkOk || copyOk
    ensures o.Installed? ==> o.installation.source == source && o.installation.destination == destination
    ensures o.Installed? ==> (o.installation.HardLink? <==> linkOk)
    ensures o.InstallFailed? <==> !linkOk && !copyOk
  {
    if linkOk then Installed(HardLink(source, destination))
    else if copyOk then Installed(Copied(source, destination))
    else InstallFailed(source, destination)
  }

  class Downloader {
    /** The directory made by mkdtemp. */
    const downloadDir: Path
    /** sha256(bytes(url, 'UTF8')).hexdigest(). */
    const digest: Url -> string
    /** `_downloaded`: None while the download of the URL is under way. */
    var downloaded: map<Url, Option<Path>>

    /** `download_dir / sha256(url)`: the staging file of a URL, the same on every call. */
    function StagingPath(url: Url): Path
    {
      downloadDir + "/" + digest(url)
    }

    /** Every finished download sits at its URL's staging path. */
    predicate Valid()
      reads this
    {
      forall u :: u in downloaded && downloaded[u].Some? ==> downloaded[u].value == StagingPath(u)
    }

    constructor (downloadDir: Path, digest: Url -> string)
      ensures this.downloadDir == downloadDir
      ensures forall u :: StagingPath(u) == downloadDir + "/" + digest(u)
      ensures downloaded == map[]
      ensures Valid()
    {
      this.downloadDir := downloadDir;
      this.digest := digest;
      downloaded := map[];
    }

    /** Two URLs share a staging file exactly when their digests agree. */
    lemma StagingPathInjective(u: Url, v: Url)
      ensures StagingPath(u) == StagingPath(v) <==> digest(u) == digest(v)
    {
      var p := downloadDir + "/";
      if StagingPath(u) == StagingPath(v) {
        assert digest(u) == StagingPath(u)[|p|..];
        assert digest(v) == StagingPath(v)[|p|..];
      }
    }

    /** The retry loop over the timeouts 1, 2, 3, 5, 7: `fetch(k)` is the outcome of attempt k.
        It stops at the first success; failures are swallowed except at timeout 7, the last one,
        which raises a URLError naming the URL. It runs only once the URL is claimed: its entry
        is present and pending, so no other download of the URL fetches at the same time. */
    method FetchWithRetry(url: Url, fetch: nat -> Attempt) returns (res: FetchResult, attempts: nat)
      requires url in downloaded && downloaded[url].None?
      ensures 1 <= attempts <= |Timeouts|
      ensures forall j :: 0 <= j < attempts - 1 ==> !fetch(j).Fetched?
      ensures res.Success? <==> fetch(attempts - 1).Fetched?
      ensures res.Success? <==> exists j :: 0 <= j < |Timeouts| && fetch(j).Fetched?
      ensures res.Failure? ==>
        attempts == |Timeouts| && Timeouts[attempts - 1] == 7 &&
        res.message == FailureMessage(url, fetch(attempts - 1))
    {
      var k := 0;
      while k < |Timeouts|
        invariant 0 <= k < |Timeouts|
        invariant forall j :: 0 <= j < k ==> !fetch(j).Fetched?
        decreases |Timeouts| - k
      {
        var timeout := Timeouts[k];
        match fetch(k) {
          case Fetched =>
            return Success, k + 1;
          case UrlError(_) =>
            if timeout == 7 {
              return Failure(FailureMessage(url, fetch(k))), k + 1;
            }
          case SocketTimeout(_) =>
            if timeout == 7 {
              return Failure(FailureMessage(url, fetch(k))), k + 1;
            }
        }
        k := k + 1;
      }
      assert false;
    }

    /** download(url, path). `cancelAtEntry` and `cancelWhilePolling` say whether the
        cancellation hook raises on entry, and on the first poll of a pending URL; `fetch`
        gives the outcome of each attempt; `linkOk` and `copyOk` whether link and copy2
        succeed. `attempts` counts the fetch attempts made. */
    method Download(url: Url, path: Path, cancelAtEntry: bool, cancelWhilePolling: bool,
                    fetch: nat -> Attempt, linkOk: bool, copyOk: bool)
      returns (res: Outcome, attempts: nat)
      requires Valid()
      modifies this
      ensures Valid()
      ensures old(downloaded).Keys <= downloaded.Keys
      ensures forall u :: u in old(downloaded) && old(downloaded)[u].Some? ==> downloaded[u] == old(downloaded)[u]
      ensures cancelAtEntry ==> res == Cancelled && attempts == 0 && downloaded == old(downloaded)
      ensures !cancelAtEntry && url in old(downloaded) && old(downloaded)[url].None? ==>
        && attempts == 0 && downloaded == old(downloaded)
        && res == (if cancelWhilePolling then Cancelled else Blocked)
      ensures !cancelAtEntry && url in old(downloaded) && old(downloaded)[url].Some? ==>
        && attempts == 0 && downloaded == old(downloaded)
        && res == Install(StagingPath(url), path, linkOk, copyOk)
      ensures !cancelAtEntry && url !in old(downloaded) ==>
        && 1 <= attempts <= |Timeouts|
        && (forall j :: 0 <= j < attempts - 1 ==> !fetch(j).Fetched?)
        && (fetch(attempts - 1).Fetched? ==>
              downloaded == old(downloaded)[url := Some(StagingPath(url))] &&
              res == Install(StagingPath(url), path, linkOk, copyOk))
        && (!fetch(attempts - 1).Fetched? ==>
              attempts == |Timeouts| && downloaded == old(downloaded)[url := None] &&
              res == FetchFailed(FailureMessage(url, fetch(attempts - 1))))
    {
      attempts := 0;
      if cancelAtEntry {
        return Cancelled, 0;
      }
      if url in downloaded {
        if downloaded[url].None? {
          // Nothing else runs: the entry stays pending, and the polling loop ends only by
          // cancellation.
          res := if cancelWhilePolling then Cancelled else Blocked;
          return res, 0;
        }
      } else {
        downloaded := downloaded[url := None];
        var fetched;
        fetched, attempts := FetchWithRetry(url, fetch);
        if fetched.Failure? {
          return FetchFailed(fetched.message), attempts;
        }
        downloaded := downloaded[url := Some(StagingPath(url))];
      }
      res := Install(downloaded[url].value, path, linkOk, copyOk);
    }
  }

  /** Once a download of a URL has installed it, every later download of that URL that is not
      cancelled reuses the staging file: no fetch, the same source. */
  method DownloadTwice(d: Downloader, url: Url, first: Path, second: Path,
                       fetch: nat -> Attempt, linkOk: bool, copyOk: bool)
    returns (again: Outcome, attempts: nat)
    requires d.Valid() && url !in d.downloaded
    requires exists j :: 0 <= j < |Timeouts| && fetch(j).Fetched?
    modifies d
    ensures attempts == 0
    ensures again == Install(d.StagingPath(url), second, linkOk, copyOk)
    ensures url in d.downloaded && d.downloaded[url] == Some(d.StagingPath(url))
  {
    var res, n := d.Download(url, first, false, false, fetch, linkOk, copyOk);
    ghost var j :| 0 <= j < |Timeouts| && fetch(j).Fetched?;
    if !fetch(n - 1).Fetched? {
      assert false;
    }
    again, attempts := d.Download(url, second, false, false, fetch, linkOk, copyOk);
  }
}
