/** The self-hosted deployment: install and update runs over one directory, each of which may be cut off anywhere. */
module Deployment {
  import opened Collections
  import opened Numerals

  // Versions.

  datatype Version = Version(major: nat, minor: nat, patch: nat)

  function Split(s: string): (parts: seq<string>)
    ensures |parts| >= 1
    decreases |s|
  {
    if s == "" then [""]
    else
      var rest := Split(s[1..]);
      if s[0] == '.' then [""] + rest else [[s[0]] + rest[0]] + rest[1..]
  }

  function Joined(parts: seq<string>): string
    requires |parts| >= 1
  {
    if |parts| == 1 then parts[0] else parts[0] + "." + Joined(parts[1..])
  }

  lemma {:induction false} JoinedOfSplit(s: string)
    ensures Joined(Split(s)) == s
    decreases |s|
  {
    if s != "" {
      JoinedOfSplit(s[1..]);
      var rest := Split(s[1..]);
      assert s == [s[0]] + s[1..];
      if s[0] == '.' {
        assert ([""] + rest)[1..] == rest;
      } else {
        var parts := [[s[0]] + rest[0]] + rest[1..];
        assert parts[1..] == rest[1..];
      }
    }
  }

  lemma {:induction false} SplitOfJoined(a: string, rest: string)
    requires '.' !in a
    ensures Split(a + "." + rest) == [a] + Split(rest)
    decreases |a|
  {
    var s := a + "." + rest;
    if a == "" {
      assert s[1..] == rest;
    } else {
      assert s[1..] == a[1..] + "." + rest;
      SplitOfJoined(a[1..], rest);
      assert [s[0]] + a[1..] == a;
    }
  }

  lemma {:induction false} SplitOfPlain(a: string)
    requires '.' !in a
    ensures Split(a) == [a]
    decreases |a|
  {
    if a != "" {
      SplitOfPlain(a[1..]);
      assert [a[0]] + a[1..] == a;
    }
  }

  /** A stable version: `v`, then three numerals between dots. */
  function Parsed(s: string): Option<Version> {
    if s == "" || s[0] != 'v' then None
    else
      var parts := Split(s[1..]);
      if |parts| != 3 || NumberOf(parts[0]).None? || NumberOf(parts[1]).None? || NumberOf(parts[2]).None? then None
      else Some(Version(NumberOf(parts[0]).value, NumberOf(parts[1]).value, NumberOf(parts[2]).value))
  }

  function Printed(v: Version): string {
    "v" + (Decimal(v.major) + "." + (Decimal(v.minor) + "." + Decimal(v.patch)))
  }

  lemma NoDot(n: nat)
    ensures '.' !in Decimal(n) && NumberOf(Decimal(n)) == Some(n)
  {
    DecimalReads(n);
  }

  /** Exactly the printed triples are versions, each its own. */
  lemma VersionRoundTrip(s: string, v: Version)
    ensures Parsed(s) == Some(v) <==> s == Printed(v)
  {
    var a, b, c := Decimal(v.major), Decimal(v.minor), Decimal(v.patch);
    if s == Printed(v) {
      NoDot(v.major);
      NoDot(v.minor);
      NoDot(v.patch);
      assert s[1..] == a + "." + (b + "." + c);
      SplitOfJoined(a, b + "." + c);
      SplitOfJoined(b, c);
      SplitOfPlain(c);
    }
    if Parsed(s) == Some(v) {
      var parts := Split(s[1..]);
      JoinedOfSplit(s[1..]);
      NumeralIsDecimal(parts[0]);
      NumeralIsDecimal(parts[1]);
      NumeralIsDecimal(parts[2]);
      assert parts[1..][1..] == [parts[2]] && parts[1..][0] == parts[1];
      assert Joined(parts[1..]) == parts[1] + "." + parts[2];
      assert Joined(parts) == parts[0] + "." + (parts[1] + "." + parts[2]);
      assert s == "v" + s[1..];
    }
  }

  predicate Less(a: Version, b: Version) {
    a.major < b.major || (a.major == b.major && (a.minor < b.minor || (a.minor == b.minor && a.patch < b.patch)))
  }

  predicate AtMost(a: Version, b: Version) {
    a == b || Less(a, b)
  }

  // Releases.

  datatype Release = Release(version: string, image: string, compatibleFrom: Option<string>, automatic: bool)

  /** Whether an update may go ahead; a malformed version is an error. */
  function UpgradeAllowed(current: Release, target: Release): Option<bool> {
    var before, after := Parsed(current.version), Parsed(target.version);
    if before.None? || after.None? then None
    else if !target.automatic || target.compatibleFrom.None? || target.compatibleFrom.value == "" then Some(false)
    else
      var lower := Parsed(target.compatibleFrom.value);
      if lower.None? then None
      else Some(lower.value.major == before.value.major == after.value.major
                && AtMost(lower.value, before.value) && Less(before.value, after.value))
  }

  /** `b` is a later version than `a`, within its major version. */
  predicate Supersedes(b: string, a: string) {
    var v, w := Parsed(a), Parsed(b);
    v.Some? && w.Some? && v.value.major == w.value.major && Less(v.value, w.value)
  }

  /** An update goes ahead exactly when the release says so, to a later version of the same major version, from one
      the release declares itself compatible with. */
  lemma UpgradeMeans(current: Release, target: Release)
    ensures UpgradeAllowed(current, target) == Some(true) <==>
      (target.automatic && Supersedes(target.version, current.version)
       && target.compatibleFrom.Some?
       && var lower := target.compatibleFrom.value; lower == current.version || Supersedes(current.version, lower))
  {
    if target.compatibleFrom.Some? && Parsed(target.compatibleFrom.value).Some? && Parsed(current.version).Some? {
      VersionRoundTrip(target.compatibleFrom.value, Parsed(target.compatibleFrom.value).value);
      VersionRoundTrip(current.version, Parsed(current.version).value);
    }
  }

  // The environment file, line by line.

  type Lines = seq<string>

  predicate Sets(line: string, name: string) {
    name + "=" <= line
  }

  /** The last line that sets a name counts. */
  function Setting(lines: Lines, name: string): Option<string> {
    if lines == [] then None
    else
      var n := |lines| - 1;
      if Sets(lines[n], name) then Some(lines[n][|name| + 1..]) else Setting(lines[..n], name)
  }

  const IMAGE_NAME := "XBOARD_IMAGE"
  const PROJECT_NAME := "COMPOSE_PROJECT_NAME"

  function Rewritten(lines: Lines, image: string): Lines {
    if lines == [] then []
    else
      var n := |lines| - 1;
      Rewritten(lines[..n], image) + [if Sets(lines[n], IMAGE_NAME) then IMAGE_NAME + "=" + image else lines[n]]
  }

  function ImageLines(lines: Lines): nat {
    if lines == [] then 0
    else ImageLines(lines[..|lines| - 1]) + if Sets(lines[|lines| - 1], IMAGE_NAME) then 1 else 0
  }

  /** The first equals sign of a line ends the name it sets. */
  lemma FirstEquals(line: string, name: string)
    requires '=' !in name && Sets(line, name)
    ensures |name| < |line| && line[..|name|] == name && line[|name|] == '='
    ensures forall i :: 0 <= i < |name| ==> line[i] != '='
  {
    var s := name + "=";
    assert s[|name|] == '=' && forall i :: 0 <= i < |name| ==> s[i] == name[i];
  }

  /** A line sets one name only. */
  lemma OneName(line: string, a: string, b: string)
    requires '=' !in a && '=' !in b && Sets(line, a) && Sets(line, b)
    ensures a == b
  {
    FirstEquals(line, a);
    FirstEquals(line, b);
  }

  /** The last line that sets the name has the value. */
  lemma {:induction false} SettingMeans(lines: Lines, name: string)
    ensures forall v :: (Setting(lines, name) == Some(v) <==>
      exists i :: 0 <= i < |lines| && lines[i] == name + "=" + v
        && forall j :: i < j < |lines| ==> !Sets(lines[j], name))
    ensures Setting(lines, name) == None <==> forall i :: 0 <= i < |lines| ==> !Sets(lines[i], name)
  {
    if lines != [] {
      var n := |lines| - 1;
      SettingMeans(lines[..n], name);
      if Sets(lines[n], name) {
        assert lines[n] == name + "=" + lines[n][|name| + 1..];
      }
    }
  }

  lemma {:induction false} ImageLinesMeans(lines: Lines)
    ensures ImageLines(lines) == |set i | 0 <= i < |lines| && Sets(lines[i], IMAGE_NAME)|
  {
    if lines != [] {
      var n := |lines| - 1;
      ImageLinesMeans(lines[..n]);
      var before := set i | 0 <= i < n && Sets(lines[i], IMAGE_NAME);
      assert before == set i | 0 <= i < n && Sets(lines[..n][i], IMAGE_NAME);
      assert (set i | 0 <= i < |lines| && Sets(lines[i], IMAGE_NAME)) ==
        before + if Sets(lines[n], IMAGE_NAME) then {n} else {};
    }
  }

  /** Rewriting changes the image setting, and no other. */
  lemma {:induction false} RewrittenSettings(lines: Lines, image: string, name: string)
    requires '=' !in name
    ensures Setting(Rewritten(lines, image), name) ==
      if name == IMAGE_NAME && ImageLines(lines) > 0 then Some(image) else Setting(lines, name)
    decreases |lines|
  {
    if lines != [] {
      var n := |lines| - 1;
      RewrittenSettings(lines[..n], image, name);
      var last := if Sets(lines[n], IMAGE_NAME) then IMAGE_NAME + "=" + image else lines[n];
      var r := Rewritten(lines, image);
      assert r == Rewritten(lines[..n], image) + [last];
      assert r[|r| - 1] == last && r[..|r| - 1] == Rewritten(lines[..n], image);
      if Sets(lines[n], IMAGE_NAME) {
        assert last[|IMAGE_NAME| + 1..] == image;
        assert Sets(last, IMAGE_NAME);
        if Sets(lines[n], name) {
          OneName(lines[n], IMAGE_NAME, name);
        }
        if Sets(last, name) {
          OneName(last, IMAGE_NAME, name);
        }
      }
    }
  }

  datatype Config = Config(project: string, url: string, email: string, port: nat, bind: string)

  /** The settings of a first installation, in the order of the file. */
  function FirstValues(c: Config, adminPath: string, image: string): seq<(string, string)> {
    [(PROJECT_NAME, c.project), (IMAGE_NAME, image), ("XBOARD_PANEL_URL", c.url), ("XBOARD_ADMIN_EMAIL", c.email),
     ("XBOARD_ADMIN_PATH", adminPath), ("XBOARD_PORT", Decimal(c.port)), ("XBOARD_BIND_ADDRESS", c.bind),
     ("XBOARD_COOKIE_SECURE", if "https:" <= c.url then "true" else "false")]
  }

  function Listed(values: seq<(string, string)>): Lines {
    seq(|values|, i requires 0 <= i < |values| => values[i].0 + "=" + values[i].1)
  }

  function FirstLines(c: Config, adminPath: string, image: string): Lines {
    Listed(FirstValues(c, adminPath, image))
  }

  /** Each of several different names is set to its value. */
  lemma {:induction false} ListedSettings(values: seq<(string, string)>, n: nat, i: nat)
    requires i < n <= |values| && forall k :: 0 <= k < |values| ==> '=' !in values[k].0
    requires forall j, k :: 0 <= j < k < |values| ==> values[j].0 != values[k].0
    ensures Setting(Listed(values)[..n], values[i].0) == Some(values[i].1)
    decreases n
  {
    var lines, last := Listed(values), values[n - 1];
    assert lines[..n][..n - 1] == lines[..n - 1];
    if i == n - 1 {
      assert lines[i][|last.0| + 1..] == last.1 && Sets(lines[i], last.0);
    } else {
      ListedSettings(values, n - 1, i);
      assert Sets(lines[n - 1], last.0);
      if Sets(lines[n - 1], values[i].0) {
        OneName(lines[n - 1], last.0, values[i].0);
      }
    }
  }

  lemma FirstNames(c: Config, adminPath: string, image: string)
    ensures var values := FirstValues(c, adminPath, image);
      && (forall k :: 0 <= k < |values| ==> '=' !in values[k].0)
      && (forall j, k :: 0 <= j < k < |values| ==> values[j].0 != values[k].0)
  {
    var values := FirstValues(c, adminPath, image);
    assert (seq(|values|, k requires 0 <= k < |values| => |values[k].0|)) == [20, 12, 16, 18, 17, 11, 19, 20];
    assert values[0].0[0] != values[7].0[0];
  }

  lemma ValueAt(c: Config, adminPath: string, image: string, i: nat, name: string, value: string)
    requires i < |FirstValues(c, adminPath, image)| && FirstValues(c, adminPath, image)[i] == (name, value)
    ensures Setting(FirstLines(c, adminPath, image), name) == Some(value)
  {
    var values := FirstValues(c, adminPath, image);
    FirstNames(c, adminPath, image);
    ListedSettings(values, |values|, i);
    assert Listed(values)[..|values|] == Listed(values);
  }

  /** What each of the eight names is set to by a first installation. */
  lemma FirstSettings(c: Config, adminPath: string, image: string)
    ensures var lines := FirstLines(c, adminPath, image);
      && Setting(lines, "COMPOSE_PROJECT_NAME") == Some(c.project) && Setting(lines, "XBOARD_IMAGE") == Some(image)
      && Setting(lines, "XBOARD_PANEL_URL") == Some(c.url) && Setting(lines, "XBOARD_ADMIN_EMAIL") == Some(c.email)
      && Setting(lines, "XBOARD_ADMIN_PATH") == Some(adminPath)
      && Setting(lines, "XBOARD_PORT") == Some(Decimal(c.port)) && Setting(lines, "XBOARD_BIND_ADDRESS") == Some(c.bind)
      && Setting(lines, "XBOARD_COOKIE_SECURE") == Some(if "https:" <= c.url then "true" else "false")
  {
    ValueAt(c, adminPath, image, 0, "COMPOSE_PROJECT_NAME", c.project);
    ValueAt(c, adminPath, image, 1, "XBOARD_IMAGE", image);
    ValueAt(c, adminPath, image, 2, "XBOARD_PANEL_URL", c.url);
    ValueAt(c, adminPath, image, 3, "XBOARD_ADMIN_EMAIL", c.email);
    ValueAt(c, adminPath, image, 4, "XBOARD_ADMIN_PATH", adminPath);
    ValueAt(c, adminPath, image, 5, "XBOARD_PORT", Decimal(c.port));
    ValueAt(c, adminPath, image, 6, "XBOARD_BIND_ADDRESS", c.bind);
    ValueAt(c, adminPath, image, 7, "XBOARD_COOKIE_SECURE", if "https:" <= c.url then "true" else "false");
  }

  // The directory.

  datatype Temporary = Torn | Whole(release: Release)

  /** The deployment directory: whether it is there, the failure marker, the environment file, the recorded release and
      the file it is first written to. */
  datatype Disk = Disk(directory: bool, marker: bool, env: Option<Lines>, installed: Option<Release>,
                       temporary: Option<Temporary>)

  datatype Mode = Install | Update

  /** How the world answers during a run: whether the containers are as recorded and no foreign resources are there,
      whether images can be pulled and the recovery set taken, and whether the new application comes up healthy. */
  datatype Outside = Outside(asRecorded: bool, pulls: bool, saves: bool, comesUp: bool)

  /** One run; `torn` is what a cut in the middle of writing the environment file leaves of it. */
  datatype Call = Call(config: Config, mode: Mode, target: Release, adminPath: string, outside: Outside, torn: Lines)

  /** A release has a well-formed version. */
  predicate Released(r: Release) {
    Parsed(r.version).Some?
  }

  /** The files agree with each other and with the project, and the target is a permitted upgrade. */
  predicate UpdateReady(d: Disk, c: Call) {
    && d.installed.Some? && d.env.Some?
    && Setting(d.env.value, PROJECT_NAME) == Some(c.config.project)
    && Setting(d.env.value, IMAGE_NAME) == Some(d.installed.value.image)
    && d.installed.value.image != c.target.image
    && UpgradeAllowed(d.installed.value, c.target) == Some(true)
  }

  /** Whether a run gets as far as changing anything. */
  predicate Proceeds(d: Disk, c: Call) {
    && d.directory == c.mode.Update? && !d.marker && c.outside.asRecorded && c.outside.pulls
    && (d.directory ==> UpdateReady(d, c))
  }

  /** Whether it gets to the end: an update also needs its recovery set and exactly one image line to rewrite. */
  predicate Completes(d: Disk, c: Call) {
    && Proceeds(d, c) && c.outside.comesUp
    && (c.mode.Update? ==> c.outside.saves && ImageLines(d.env.value) == 1)
  }

  /** Every state of the directory during a run, in order: a run that is cut off leaves one of them. */
  function Trail(d: Disk, c: Call): seq<Disk> {
    if !Proceeds(d, c) then [d]
    else if c.mode.Install? then
      var made := d.(directory := true);
      var marked := made.(marker := true);
      [d, made, marked] + Finish(marked, FirstLines(c.config, c.adminPath, c.target.image), c)
    else
      var marked := d.(marker := true);
      if !c.outside.saves || ImageLines(d.env.value) != 1 then [d, marked]
      else [d, marked] + Finish(marked, Rewritten(d.env.value, c.target.image), c)
  }

  /** The common end: the environment file, the application, the record, the marker. */
  function Finish(d: Disk, lines: Lines, c: Call): seq<Disk> {
    var written := d.(env := Some(lines));
    var recorded := written.(installed := Some(c.target), temporary := None);
    if !c.outside.comesUp then [d.(env := Some(c.torn)), written]
    else [d.(env := Some(c.torn)), written,
          written.(temporary := Some(Torn)), written.(temporary := Some(Whole(c.target))),
          recorded, recorded.(marker := false)]
  }

  /** The same, step by step; `trail` collects what a cut would have left. */
  class Installation {
    var directory: bool
    var marker: bool
    var env: Option<Lines>
    var installed: Option<Release>
    var temporary: Option<Temporary>
    ghost var trail: seq<Disk>

    ghost function View(): Disk
      reads this
    {
      Disk(directory, marker, env, installed, temporary)
    }

    constructor (directory: bool, marker: bool, env: Option<Lines>, installed: Option<Release>,
                 temporary: Option<Temporary>)
      ensures View() == Disk(directory, marker, env, installed, temporary)
    {
      this.directory, this.marker, this.env := directory, marker, env;
      this.installed, this.temporary := installed, temporary;
      trail := [];
    }

    ghost method Note()
      modifies this`trail
      ensures trail == old(trail) + [View()]
    {
      trail := trail + [View()];
    }

    /** Returns whether the release was put in place by this run. */
    method DeployInner(c: Call) returns (deployed: bool)
      modifies this
      ensures trail == Trail(old(View()), c) && View() == trail[|trail| - 1]
      ensures deployed <==> Completes(old(View()), c)
      ensures deployed ==> installed == Some(c.target) && !marker && temporary.None?
      ensures !deployed ==> installed == old(installed)
    {
      trail := [];
      Note();
      if c.mode.Install? && directory {
        return false;
      }
      if c.mode.Update? && !directory {
        return false;
      }
      if marker {
        return false;
      }
      var lines: Lines := FirstLines(c.config, c.adminPath, c.target.image);
      if directory {
        if installed.None? || env.None? {
          return false;
        }
        if Setting(env.value, PROJECT_NAME) != Some(c.config.project)
          || Setting(env.value, IMAGE_NAME) != Some(installed.value.image)
        {
          return false;
        }
        if !c.outside.asRecorded || installed.value.image == c.target.image {
          return false;
        }
        if UpgradeAllowed(installed.value, c.target) != Some(true) {
          return false;
        }
      } else if !c.outside.asRecorded {
        return false;
      }
      if !c.outside.pulls {
        return false;
      }
      if directory {
        marker := true;
        Note();
        if !c.outside.saves || ImageLines(env.value) != 1 {
          return false;
        }
        lines := Rewritten(env.value, c.target.image);
      } else {
        directory := true;
        Note();
        marker := true;
        Note();
      }
      deployed := FinishDeployment(c, lines);
    }

    method FinishDeployment(c: Call, lines: Lines) returns (deployed: bool)
      modifies this
      ensures trail == old(trail) + Finish(old(View()), lines, c) && View() == trail[|trail| - 1]
      ensures deployed <==> c.outside.comesUp
      ensures if deployed then installed == Some(c.target) && !marker && temporary.None?
        else installed == old(installed)
    {
      env := Some(c.torn);
      Note();
      env := Some(lines);
      Note();
      if !c.outside.comesUp {
        return false;
      }
      temporary := Some(Torn);
      Note();
      temporary := Some(Whole(c.target));
      Note();
      installed, temporary := Some(c.target), None;
      Note();
      marker := false;
      Note();
      deployed := true;
    }
  }

  // Sequences of runs, each cut off anywhere.

  ghost predicate Runs(ds: seq<Disk>, cs: seq<Call>) {
    && |ds| == |cs| + 1 && ds[0] == Disk(false, false, None, None, None)
    && forall k {:trigger cs[k]} :: 0 <= k < |cs| ==> Released(cs[k].target) && ds[k + 1] in Trail(ds[k], cs[k])
  }

  /** The environment file names the recorded image. */
  predicate Consistent(d: Disk) {
    d.env.Some? && d.installed.Some? && Setting(d.env.value, IMAGE_NAME) == Some(d.installed.value.image)
  }

  predicate Sound(d: Disk) {
    && (!d.marker && d.installed.Some? ==> Consistent(d))
    && (!d.directory ==> !d.marker && d.env.None? && d.installed.None? && d.temporary.None?)
    && (d.installed.Some? ==> Released(d.installed.value))
  }

  /** No run can change the directory any more: it is left to an operator. */
  predicate Blocked(d: Disk) {
    d.directory && (d.marker || d.installed.None? || d.env.None?)
  }

  /** What the record can become. */
  predicate Follows(after: Option<Release>, before: Option<Release>) {
    before.Some? ==> after.Some? && (after == before || Supersedes(after.value.version, before.value.version))
  }

  lemma FinishSound(d: Disk, lines: Lines, c: Call)
    requires d.directory && d.marker && (d.installed.Some? ==> Released(d.installed.value)) && Released(c.target)
    requires Setting(lines, IMAGE_NAME) == Some(c.target.image)
    ensures forall i :: 0 <= i < |Finish(d, lines, c)| ==> Sound(Finish(d, lines, c)[i])
  {
  }

  lemma RewrittenNames(d: Disk, c: Call)
    requires d.env.Some? && ImageLines(d.env.value) == 1
    ensures Setting(Rewritten(d.env.value, c.target.image), IMAGE_NAME) == Some(c.target.image)
  {
    RewrittenSettings(d.env.value, c.target.image, IMAGE_NAME);
  }

  lemma InstallSound(d: Disk, c: Call)
    requires Sound(d) && Released(c.target) && Proceeds(d, c) && c.mode.Install?
    ensures forall e :: e in Trail(d, c) ==> Sound(e)
  {
    FirstSettings(c.config, c.adminPath, c.target.image);
    FinishSound(d.(directory := true, marker := true), FirstLines(c.config, c.adminPath, c.target.image), c);
  }

  lemma UpdateSound(d: Disk, c: Call)
    requires Sound(d) && Released(c.target) && Proceeds(d, c) && c.mode.Update?
    ensures forall e :: e in Trail(d, c) ==> Sound(e) && Follows(e.installed, d.installed)
  {
    UpgradeMeans(d.installed.value, c.target);
    if ImageLines(d.env.value) == 1 {
      RewrittenNames(d, c);
      FinishSound(d.(marker := true), Rewritten(d.env.value, c.target.image), c);
    }
  }

  lemma TrailSound(d: Disk, c: Call)
    requires Sound(d) && Released(c.target)
    ensures forall e :: e in Trail(d, c) ==> Sound(e) && Follows(e.installed, d.installed)
  {
    if Proceeds(d, c) {
      if c.mode.Install? {
        InstallSound(d, c);
      } else {
        UpdateSound(d, c);
      }
    }
  }

  lemma {:induction false} RunsSound(ds: seq<Disk>, cs: seq<Call>, k: nat)
    requires Runs(ds, cs) && k < |ds|
    ensures Sound(ds[k])
  {
    if k > 0 {
      RunsSound(ds, cs, k - 1);
      TrailSound(ds[k - 1], cs[k - 1]);
    }
  }

  /** Whenever the marker is absent and a release is recorded, the environment file names its image, wherever earlier
      runs were cut off. */
  lemma CrashSafety(ds: seq<Disk>, cs: seq<Call>, k: nat)
    requires Runs(ds, cs) && k < |ds| && !ds[k].marker && ds[k].installed.Some?
    ensures ds[k].env.Some? && Setting(ds[k].env.value, IMAGE_NAME) == Some(ds[k].installed.value.image)
  {
    RunsSound(ds, cs, k);
  }

  /** The same in the middle of a run: what a reader sees at any moment. */
  lemma CrashSafetyInside(ds: seq<Disk>, cs: seq<Call>, k: nat, d: Disk)
    requires Runs(ds, cs) && k < |cs| && d in Trail(ds[k], cs[k]) && !d.marker && d.installed.Some?
    ensures Consistent(d)
  {
    RunsSound(ds, cs, k);
    TrailSound(ds[k], cs[k]);
  }

  /** While the marker exists, or an installation was cut off before it, no run changes anything. */
  lemma {:induction false} BlockedForGood(ds: seq<Disk>, cs: seq<Call>, j: nat, k: nat)
    requires Runs(ds, cs) && j <= k < |ds| && Blocked(ds[j])
    ensures ds[k] == ds[j]
  {
    if j < k {
      BlockedForGood(ds, cs, j, k - 1);
      assert ds[k - 1 + 1] in Trail(ds[k - 1], cs[k - 1]);
    }
  }

  /** What is recorded later is the same release or a later version of the same major version. */
  lemma {:induction false} VersionsIncrease(ds: seq<Disk>, cs: seq<Call>, j: nat, k: nat)
    requires Runs(ds, cs) && j <= k < |ds|
    ensures Follows(ds[k].installed, ds[j].installed)
  {
    if j < k {
      VersionsIncrease(ds, cs, j, k - 1);
      RunsSound(ds, cs, k - 1);
      TrailSound(ds[k - 1], cs[k - 1]);
      assert ds[k - 1 + 1] in Trail(ds[k - 1], cs[k - 1]);
    }
  }

  /** Where a run ends that nothing cuts off. */
  function Outcome(d: Disk, c: Call): Disk {
    Trail(d, c)[|Trail(d, c)| - 1]
  }

  /** Exactly when a run changes anything, and exactly when it gets to its end; otherwise the directory stays as it
      is. */
  lemma RunMeans(d: Disk, c: Call)
    ensures Trail(d, c)[0] == d
    ensures |Trail(d, c)| > 1 <==>
      && d.directory == c.mode.Update? && !d.marker && c.outside.asRecorded && c.outside.pulls
      && (c.mode.Update? ==>
            && d.installed.Some? && d.env.Some?
            && Setting(d.env.value, "COMPOSE_PROJECT_NAME") == Some(c.config.project)
            && Setting(d.env.value, "XBOARD_IMAGE") == Some(d.installed.value.image)
            && d.installed.value.image != c.target.image
            && c.target.automatic && Supersedes(c.target.version, d.installed.value.version)
            && c.target.compatibleFrom.Some?
            && var lower := c.target.compatibleFrom.value;
               lower == d.installed.value.version || Supersedes(d.installed.value.version, lower))
    ensures Completes(d, c) <==>
      && |Trail(d, c)| > 1 && c.outside.comesUp
      && (c.mode.Update? ==> c.outside.saves && ImageLines(d.env.value) == 1)
    ensures Completes(d, c) ==> Outcome(d, c).installed == Some(c.target) && !Outcome(d, c).marker
    ensures !Completes(d, c) ==> Outcome(d, c).installed == d.installed && (|Trail(d, c)| > 1 ==> Outcome(d, c).marker)
  {
    if d.installed.Some? {
      UpgradeMeans(d.installed.value, c.target);
    }
  }

  lemma FinishEnds(d: Disk, lines: Lines, c: Call)
    requires c.outside.comesUp
    ensures |Finish(d, lines, c)| == 6
    ensures Finish(d, lines, c)[5] == Disk(d.directory, false, Some(lines), Some(c.target), None)
  {
  }

  /** An installation in a world that cooperates ends with the target recorded and named and the marker gone. */
  lemma CompletedInstall(d: Disk, c: Call)
    requires Proceeds(d, c) && c.mode.Install? && c.outside.comesUp
    ensures var e := Outcome(d, c);
      && e.directory && !e.marker && e.installed == Some(c.target) && e.temporary.None? && e.env.Some?
      && Setting(e.env.value, "COMPOSE_PROJECT_NAME") == Some(c.config.project)
      && Setting(e.env.value, "XBOARD_IMAGE") == Some(c.target.image)
      && Setting(e.env.value, "XBOARD_PANEL_URL") == Some(c.config.url)
      && Setting(e.env.value, "XBOARD_ADMIN_EMAIL") == Some(c.config.email)
      && Setting(e.env.value, "XBOARD_ADMIN_PATH") == Some(c.adminPath)
      && Setting(e.env.value, "XBOARD_PORT") == Some(Decimal(c.config.port))
      && Setting(e.env.value, "XBOARD_BIND_ADDRESS") == Some(c.config.bind)
      && Setting(e.env.value, "XBOARD_COOKIE_SECURE") == Some(if "https:" <= c.config.url then "true" else "false")
  {
    var lines := FirstLines(c.config, c.adminPath, c.target.image);
    FirstSettings(c.config, c.adminPath, c.target.image);
    FinishEnds(d.(directory := true, marker := true), lines, c);
  }

  /** So does an update, and every other setting is as it was. */
  lemma CompletedUpdate(d: Disk, c: Call, name: string)
    requires Proceeds(d, c) && c.mode.Update? && c.outside.saves && c.outside.comesUp && ImageLines(d.env.value) == 1
    requires '=' !in name
    ensures var e := Outcome(d, c);
      && e.directory && !e.marker && e.installed == Some(c.target) && e.env.Some?
      && Setting(e.env.value, name) == if name == IMAGE_NAME then Some(c.target.image) else Setting(d.env.value, name)
  {
    FinishEnds(d.(marker := true), Rewritten(d.env.value, c.target.image), c);
    RewrittenSettings(d.env.value, c.target.image, name);
  }
}
