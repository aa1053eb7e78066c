/** `RemoteFileUpdater` (src/remote_file_updater.py): downloads the spreadsheet to a temporary
    path, and replaces the local copy only when its MD5 fingerprint differs from the one kept in
    a sidecar file; a loop repeats the check until a stop is requested. */
module RemoteFileUpdater {
  import opened Wrappers
  import opened Text
  import opened Entities

  type Byte = b: int | 0 <= b < 256
  type Bytes = seq<Byte>
  type Path = string

  /** The file system at the three paths the updater uses: a path that is not a key has no
      file; `None` is a file that exists but cannot be opened or read. */
  type FileSystem = map<Path, Option<Bytes>>

  predicate HexDigit(c: char) { '0' <= c <= '9' || 'a' <= c <= 'f' }

  /** What `hashlib.md5().hexdigest()` returns: 32 lower-case hexadecimal digits. */
  type Digest = s: string | |s| == 32 && forall i :: 0 <= i < |s| ==> HexDigit(s[i])
    witness "00000000000000000000000000000000"

  /** The outcome of `requests.get` and of writing it to the temporary path: the bytes
      written, or any exception raised before the fingerprint is compared. */
  datatype Download = Fetched(content: Bytes) | Failed

  /** The constructor's configuration. `md5` is the fingerprint of a byte string. */
  datatype Settings = Settings(remoteUrl: Option<string>, filePath: Path, md5: Bytes -> Digest)

  /** The part of the updater that a download changes. */
  datatype FileState = FileState(fs: FileSystem, lastUpdate: Option<Timestamp>)

  function TempPath(filePath: Path): Path { filePath + ".tmp" }
  function SidecarPath(filePath: Path): Path { filePath + ".md5" }

  /** The three paths are distinct. */
  lemma PathsDistinct(filePath: Path)
    ensures TempPath(filePath) != filePath && SidecarPath(filePath) != filePath
    ensures TempPath(filePath) != SidecarPath(filePath)
  {
    assert |TempPath(filePath)| != |filePath|;
    assert TempPath(filePath)[|filePath| + 1] != SidecarPath(filePath)[|filePath| + 1];
  }

  /** `not self.remote_url`: unset or empty. */
  predicate UrlMissing(cfg: Settings) { cfg.remoteUrl.None? || cfg.remoteUrl.value == "" }

  /** The bytes that writing `h` in text mode produces: one per character. */
  function EncodeDigest(h: Digest): Bytes
  {
    seq(|h|, i requires 0 <= i < |h| => h[i] as int)
  }

  /** Reading bytes in text mode; a byte outside ASCII is a decoding error. */
  function DecodeText(bs: Bytes): Option<string>
  {
    if forall i :: 0 <= i < |bs| ==> bs[i] < 128 then Some(seq(|bs|, i requires 0 <= i < |bs| => bs[i] as char))
    else None
  }

  /** `_load_md5`: the stripped text of the sidecar, or `None` when it is missing or cannot be
      read. */
  function LoadDigest(fs: FileSystem, sidecar: Path): Option<string>
  {
    if sidecar !in fs || fs[sidecar].None? then None
    else
      var text :- DecodeText(fs[sidecar].value);
      Some(Strip(text))
  }

  /** Reading back the bytes a fingerprint is written as gives the fingerprint. */
  lemma DecodeEncodeDigest(h: Digest)
    ensures DecodeText(EncodeDigest(h)) == Some(h)
  {
    var bs := EncodeDigest(h);
    assert forall i :: 0 <= i < |bs| ==> bs[i] < 128;
    assert seq(|bs|, i requires 0 <= i < |bs| => bs[i] as char) == h;
  }

  /** `_save_md5` followed by `_load_md5` gives the fingerprint back. */
  lemma SidecarRoundTrip(fs: FileSystem, sidecar: Path, h: Digest)
    ensures LoadDigest(fs[sidecar := Some(EncodeDigest(h))], sidecar) == Some(h)
  {
    DecodeEncodeDigest(h);
    assert !IsSpace(h[0]) && !IsSpace(h[|h| - 1]);
    StripTrimmed(h);
  }

  /** `download_file`, given the download's outcome and the clock: the new state and the value
      returned. */
  function Fetch(cfg: Settings, s: FileState, download: Download, now: Timestamp): (FileState, bool)
  {
    var file := cfg.filePath;
    var tmp := TempPath(file);
    var sidecar := SidecarPath(file);
    if UrlMissing(cfg) then (s, false)
    else match download
      case Failed => (s.(fs := s.fs - {tmp}), false)
      case Fetched(content) =>
        var written := s.fs[tmp := Some(content)];
        var newMd5 := cfg.md5(content);
        if LoadDigest(written, sidecar) != Some(newMd5) then
          // remove the old copy, then rename the temporary file over it
          var replaced := (written - {file})[file := Some(content)] - {tmp};
          (FileState(replaced[sidecar := Some(EncodeDigest(newMd5))], Some(now)), true)
        else
          (s.(fs := written - {tmp}), false)
  }

  /** Without a remote URL nothing changes and the call returns `False`. */
  lemma FetchUrlMissing(cfg: Settings, s: FileState, download: Download, now: Timestamp)
    requires UrlMissing(cfg)
    ensures Fetch(cfg, s, download, now) == (s, false)
  {
  }

  /** When the fingerprint differs, the local copy holds the download, the sidecar loads the new
      fingerprint, the temporary file is gone, `last_update` is `now`, nothing else changes and
      the call returns `True`. A missing or unreadable sidecar always counts as different. */
  lemma FetchChanged(cfg: Settings, s: FileState, content: Bytes, now: Timestamp)
    requires !UrlMissing(cfg)
    requires LoadDigest(s.fs, SidecarPath(cfg.filePath)) != Some(cfg.md5(content))
    ensures var (s', changed) := Fetch(cfg, s, Fetched(content), now);
      && changed
      && cfg.filePath in s'.fs && s'.fs[cfg.filePath] == Some(content)
      && LoadDigest(s'.fs, SidecarPath(cfg.filePath)) == Some(cfg.md5(content))
      && TempPath(cfg.filePath) !in s'.fs
      && s'.lastUpdate == Some(now)
      && s'.fs - {cfg.filePath, TempPath(cfg.filePath), SidecarPath(cfg.filePath)}
         == s.fs - {cfg.filePath, TempPath(cfg.filePath), SidecarPath(cfg.filePath)}
  {
    var file := cfg.filePath;
    var tmp := TempPath(file);
    var sidecar := SidecarPath(file);
    var h := cfg.md5(content);
    PathsDistinct(file);
    var written := s.fs[tmp := Some(content)];
    LoadDigestFrame(written, s.fs, sidecar);
    var replaced := (written - {file})[file := Some(content)] - {tmp};
    assert Fetch(cfg, s, Fetched(content), now) == (FileState(replaced[sidecar := Some(EncodeDigest(h))], Some(now)), true);
    SidecarRoundTrip(replaced, sidecar, h);
    assert replaced[sidecar := Some(EncodeDigest(h))] - {file, tmp, sidecar} == s.fs - {file, tmp, sidecar};
  }

  /** A missing or unreadable sidecar makes every successful download a change. */
  lemma FetchWithoutSidecar(cfg: Settings, s: FileState, content: Bytes, now: Timestamp)
    requires !UrlMissing(cfg)
    requires LoadDigest(s.fs, SidecarPath(cfg.filePath)) == None
    ensures Fetch(cfg, s, Fetched(content), now).1
  {
    FetchChanged(cfg, s, content, now);
  }

  /** When the fingerprint is the stored one, only the temporary file goes away and the call
      returns `False`. */
  lemma FetchUnchanged(cfg: Settings, s: FileState, content: Bytes, now: Timestamp)
    requires !UrlMissing(cfg)
    requires LoadDigest(s.fs, SidecarPath(cfg.filePath)) == Some(cfg.md5(content))
    ensures Fetch(cfg, s, Fetched(content), now) == (s.(fs := s.fs - {TempPath(cfg.filePath)}), false)
  {
    var file := cfg.filePath;
    PathsDistinct(file);
    var written := s.fs[TempPath(file) := Some(content)];
    assert LoadDigest(written, SidecarPath(file)) == LoadDigest(s.fs, SidecarPath(file));
    assert written - {TempPath(file)} == s.fs - {TempPath(file)};
  }

  /** A failed download removes the temporary file, leaves every other path and `last_update`
      alone, and returns `False`. */
  lemma FetchFailed(cfg: Settings, s: FileState, now: Timestamp)
    ensures var (s', changed) := Fetch(cfg, s, Failed, now);
      && !changed
      && s'.lastUpdate == s.lastUpdate
      && (!UrlMissing(cfg) ==> TempPath(cfg.filePath) !in s'.fs)
      && s'.fs - {TempPath(cfg.filePath)} == s.fs - {TempPath(cfg.filePath)}
  {
  }

  /** Loading the sidecar looks at the sidecar only. */
  lemma LoadDigestFrame(fs1: FileSystem, fs2: FileSystem, sidecar: Path)
    requires sidecar in fs1 <==> sidecar in fs2
    requires sidecar in fs1 ==> fs1[sidecar] == fs2[sidecar]
    ensures LoadDigest(fs1, sidecar) == LoadDigest(fs2, sidecar)
  {
  }

  /** Fetching the same bytes a second time returns `False` and changes nothing. */
  lemma FetchTwice(cfg: Settings, s: FileState, content: Bytes, now: Timestamp, later: Timestamp)
    requires !UrlMissing(cfg)
    ensures var s1 := Fetch(cfg, s, Fetched(content), now).0;
      Fetch(cfg, s1, Fetched(content), later) == (s1, false)
  {
    var file := cfg.filePath;
    var tmp := TempPath(file);
    var sidecar := SidecarPath(file);
    PathsDistinct(file);
    var s1 := Fetch(cfg, s, Fetched(content), now).0;
    if LoadDigest(s.fs, sidecar) != Some(cfg.md5(content)) {
      FetchChanged(cfg, s, content, now);
    } else {
      FetchUnchanged(cfg, s, content, now);
      LoadDigestFrame(s.fs, s1.fs, sidecar);
    }
    assert LoadDigest(s1.fs, sidecar) == Some(cfg.md5(content)) && tmp !in s1.fs;
    FetchUnchanged(cfg, s1, content, later);
    assert s1.fs - {tmp} == s1.fs;
  }

  // ---------------------------------------------------------------------------------------
  // The periodic check.

  /** One iteration of `check_loop`: the download's outcome, the clock, and whether `stop()`
      is called while the iteration sleeps. */
  datatype Tick = Tick(download: Download, now: Timestamp, stopDuringSleep: bool)

  /** The state and the values `download_file` returns over the iterations `ticks`. */
  function Run(cfg: Settings, s: FileState, ticks: seq<Tick>): (FileState, seq<bool>)
    decreases |ticks|
  {
    if ticks == [] then (s, [])
    else
      var (before, changes) := Run(cfg, s, ticks[..|ticks| - 1]);
      var last := ticks[|ticks| - 1];
      var (after, changed) := Fetch(cfg, before, last.download, last.now);
      (after, changes + [changed])
  }

  /** Iterations that all download the same bytes report a change at most in the first one. */
  lemma {:induction false} RunSameContent(cfg: Settings, s: FileState, ticks: seq<Tick>, content: Bytes)
    requires !UrlMissing(cfg)
    requires forall k :: 0 <= k < |ticks| ==> ticks[k].download == Fetched(content)
    ensures |Run(cfg, s, ticks).1| == |ticks|
    ensures forall k :: 0 < k < |ticks| ==> !Run(cfg, s, ticks).1[k]
    ensures ticks != [] ==> Run(cfg, s, ticks).0 == Fetch(cfg, s, Fetched(content), ticks[0].now).0
    decreases |ticks|
  {
    if |ticks| > 1 {
      var init := ticks[..|ticks| - 1];
      RunSameContent(cfg, s, init, content);
      FetchTwice(cfg, s, content, ticks[0].now, ticks[|ticks| - 1].now);
    }
  }

  class RemoteFileUpdater {
    const settings: Settings
    var fs: FileSystem
    var lastUpdate: Option<Timestamp>
    /** `_stop_event`. */
    var stopRequested: bool

    function State(): FileState
      reads this
    {
      FileState(fs, lastUpdate)
    }

    constructor(remoteUrl: Option<string>, filePath: Path, md5: Bytes -> Digest, initial: FileSystem)
      ensures settings == Settings(remoteUrl, filePath, md5)
      ensures fs == initial && lastUpdate == None && !stopRequested
    {
      settings := Settings(remoteUrl, filePath, md5);
      fs := initial;
      lastUpdate := None;
      stopRequested := false;
    }

    /** `_save_md5`: (over)write the sidecar with the fingerprint's text. */
    method SaveMd5(h: Digest)
      modifies this
      ensures fs == old(fs)[SidecarPath(settings.filePath) := Some(EncodeDigest(h))]
      ensures LoadDigest(fs, SidecarPath(settings.filePath)) == Some(h)
      ensures lastUpdate == old(lastUpdate) && stopRequested == old(stopRequested)
    {
      fs := fs[SidecarPath(settings.filePath) := Some(EncodeDigest(h))];
      SidecarRoundTrip(old(fs), SidecarPath(settings.filePath), h);
    }

    /** `download_file`, step by step. */
    method DownloadFile(download: Download, now: Timestamp) returns (changed: bool)
      modifies this
      ensures (State(), changed) == Fetch(settings, old(State()), download, now)
      ensures stopRequested == old(stopRequested)
    {
      if UrlMissing(settings) {
        return false;
      }
      var file := settings.filePath;
      var tmp := TempPath(file);
      PathsDistinct(file);
      match download
      case Failed =>
        if tmp in fs {
          fs := fs - {tmp};
        }
        assert fs == old(fs) - {tmp};
        return false;
      case Fetched(content) =>
        fs := fs[tmp := Some(content)];
        ghost var written := fs;
        var newMd5 := settings.md5(content);
        var oldMd5 := LoadDigest(fs, SidecarPath(file));
        if oldMd5 != Some(newMd5) {
          if file in fs {
            fs := fs - {file};
          }
          assert fs == written - {file};
          fs := fs[file := fs[tmp]] - {tmp};
          SaveMd5(newMd5);
          lastUpdate := Some(now);
          return true;
        } else {
          fs := fs - {tmp};
          return false;
        }
    }

    /** `stop`: set the stop event. */
    method Stop()
      modifies this
      ensures stopRequested
      ensures fs == old(fs) && lastUpdate == old(lastUpdate)
    {
      stopRequested := true;
    }

    /** `check_loop` over the iterations `ticks` (the thread, the sleep and the stop event's
        cross-thread signalling are left out): `changes[k]` is what `download_file` returned in
        iteration `k` and `callbacks[k]` whether the callback ran then. */
    method CheckLoop(ticks: seq<Tick>, hasCallback: bool) returns (changes: seq<bool>, callbacks: seq<bool>)
      modifies this
      ensures |callbacks| == |changes| <= |ticks|
      ensures stopRequested == (old(stopRequested) || (|changes| > 0 && ticks[|changes| - 1].stopDuringSleep))
      ensures forall k :: 0 <= k < |changes| ==> callbacks[k] == (hasCallback && changes[k])
      ensures old(stopRequested) ==> changes == []
      ensures forall k :: 0 <= k < |changes| - 1 ==> !ticks[k].stopDuringSleep
      ensures |changes| < |ticks| ==> stopRequested
      ensures (State(), changes) == Run(settings, old(State()), ticks[..|changes|])
    {
      changes := [];
      callbacks := [];
      var i := 0;
      while !stopRequested && i < |ticks|
        invariant 0 <= i <= |ticks|
        invariant |changes| == |callbacks| == i
        invariant forall k :: 0 <= k < i ==> callbacks[k] == (hasCallback && changes[k])
        invariant i == 0 ==> stopRequested == old(stopRequested)
        invariant 0 < i ==> !old(stopRequested)
        invariant forall k :: 0 <= k < i - 1 ==> !ticks[k].stopDuringSleep
        invariant 0 < i ==> stopRequested == ticks[i - 1].stopDuringSleep
        invariant (State(), changes) == Run(settings, old(State()), ticks[..i])
        decreases |ticks| - i
      {
        var tick := ticks[i];
        var changed := DownloadFile(tick.download, tick.now);
        changes := changes + [changed];
        callbacks := callbacks + [hasCallback && changed];
        if tick.stopDuringSleep {
          Stop();
        }
        i := i + 1;
        assert ticks[..i][..i - 1] == ticks[..i - 1];
      }
    }
  }
}
