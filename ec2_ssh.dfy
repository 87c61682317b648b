/**
 * The two entry points of ec2-ssh once argument parsing, the environment and
 * the process calls are replaced by values: `main` resolves one host and
 * builds the ssh command it would exec, and `host` renders one line per
 * instance. DescribeInstances is a function from the filter list to its
 * response, supplied by the caller.
 */
module Ec2Ssh {
  import opened Wrappers
  import opened PyDict
  import opened Inventory

  // ------------------------------------------------------- target parsing

  /** The positional argument after parsing: who to log in as, and the tag value to match. */
  datatype Target = Target(username: string, value: string)

  /** Index of the first '@' in `s`. */
  function FirstAt(s: string): (r: Option<nat>)
    ensures r.None? <==> '@' !in s
    ensures r.Some? ==> r.value < |s| && s[r.value] == '@' && '@' !in s[..r.value]
  {
    if s == [] then None
    else if s[0] == '@' then Some(0)
    else match FirstAt(s[1..])
      case None => None
      case Some(j) => (assert s[..j + 1] == [s[0]] + s[1..][..j]; Some(j + 1))
  }

  /** `value.split('@', 1)` when the value holds an '@', else the `--user` default and the value unchanged. */
  function SplitTarget(arg: string, user: string): (t: Target)
    ensures '@' in arg ==> t.username + "@" + t.value == arg && '@' !in t.username
    ensures '@' !in arg ==> t == Target(user, arg)
  {
    match FirstAt(arg)
    case None => Target(user, arg)
    case Some(j) => (assert arg == arg[..j] + "@" + arg[j + 1..]; Target(arg[..j], arg[j + 1..]))
  }

  /** The split is at the FIRST '@': any later '@' stays in the value. */
  lemma SplitTargetAtFirst(arg: string, user: string, u: string, v: string)
    requires arg == u + "@" + v && '@' !in u
    ensures SplitTarget(arg, user) == Target(u, v)
  {
    assert arg[|u|] == '@';
    var j := FirstAt(arg).value;
    assert forall k :: 0 <= k < |u| ==> arg[k] == u[k] != '@';
    assert forall k :: 0 <= k < j ==> arg[k] == arg[..j][k] != '@';
    assert j == |u|;
    assert arg[..j] == u;
    assert arg[j + 1..] == v;
  }

  // ----------------------------------------------------- host selection

  /** The body of `get_host_name` on the dictionary: the 'public' field of the first entry, or None. */
  function FirstPublic(d: Dict<Record>): Result<Option<string>, KeyError>
  {
    if d == [] then Ok(None)
    else if d[0].1.publicAddr.Some? then Ok(d[0].1.publicAddr)
    else Err(KeyError("public"))
  }

  /**
   * `get_host_name` given the DescribeInstances response. A host name is
   * never empty and is the public address of some running instance; there is
   * none exactly when no instance was stored.
   */
  function GetHostName(resp: Response): (r: Result<Option<string>, KeyError>)
    ensures r.Ok? && r.value.Some? ==>
      && r.value.value != ""
      && exists j :: 0 <= j < |Flatten(resp)| && Kept(Flatten(resp)[j].state)
                     && Flatten(resp)[j].publicIpAddress == r.value
    ensures r == Ok(None) <==> Normalize(resp) == Ok([])
  {
    match Normalize(resp)
    case Err(e) => Err(e)
    case Ok(d) =>
      assert d != [] ==> exists j :: 0 <= j < |Flatten(resp)| && Kept(Flatten(resp)[j].state)
                                   && Project(Flatten(resp)[j]) == Ok(d[0].1) by {
        if d != [] {
          CollectEntry(Flatten(resp), 0);
          var i := LastKept(Flatten(resp), FirstOccurrences(KeptIds(Flatten(resp)))[0]).value;
          var j :| 0 <= j < |Flatten(resp)| && Flatten(resp)[j] == i;
        }
      }
      FirstPublic(d)
  }

  /**
   * The host is the public address of the first running instance in
   * traversal order, read from the LAST running instance that shares its id;
   * a missing public address raises KeyError rather than moving on.
   */
  lemma GetHostNameIsFirstInstance(resp: Response)
    ensures Normalize(resp).Err? ==> GetHostName(resp) == Err(Normalize(resp).error)
    ensures Normalize(resp).Ok? && KeptIds(Flatten(resp)) == [] ==> GetHostName(resp) == Ok(None)
    ensures Normalize(resp).Ok? && KeptIds(Flatten(resp)) != [] ==>
      var i := LastKept(Flatten(resp), KeptIds(Flatten(resp))[0]);
      && i.Some?
      && i.value.publicIpAddress.Some?
      && GetHostName(resp) == if i.value.publicIpAddress.value != "" then Ok(i.value.publicIpAddress)
                              else Err(KeyError("public"))
  {
    var insts := Flatten(resp);
    if Collect(insts).Ok? {
      var d := Collect(insts).value;
      CollectKeys(insts);
      if KeptIds(insts) != [] {
        var id := KeptIds(insts)[0];
        assert Keys(d)[0] == id;
        assert Find(d, id) == Some(0);
        CollectGet(insts, id);
        CollectSucceeds(insts);
      }
    }
  }

  // ------------------------------------------------------------- main

  const NoHostsMatched := "ec2-ssh: no hosts matched"

  /** How `main` ends. */
  datatype Outcome =
    | Exit(status: int, stderr: seq<string>)       // sys.exit after writing to stderr
    | Exec(file: string, argv: seq<string>, stderr: seq<string>)
      // os.execlp(file, *argv) after writing to stderr: `file` is looked up on
      // PATH and `argv` becomes the new process's argument vector, argv[0] included
    | Raised(error: KeyError)                      // an uncaught KeyError

  /** The filters `main` sent to DescribeInstances, and how it ended. */
  datatype Run = Run(query: seq<Filter>, outcome: Outcome)

  /**
   * The list `command`: `['ssh', '-t', '-t', username@host]` extended with the
   * unparsed arguments, which keep their order; splitting the target at its
   * first '@' gives back an '@'-free username and the host.
   */
  function SshCommand(username: string, host: string, unparsed: seq<string>): (command: seq<string>)
    ensures |command| == 4 + |unparsed|
    ensures command[..3] == ["ssh", "-t", "-t"] && command[4..] == unparsed
    ensures command[3] == username + "@" + host
    ensures forall dflt :: '@' !in username ==> SplitTarget(command[3], dflt) == Target(username, host)
  {
    var command := ["ssh", "-t", "-t", username + "@" + host] + unparsed;
    assert command[3] == username + "@" + host;
    forall dflt | '@' !in username ensures SplitTarget(command[3], dflt) == Target(username, host) {
      SplitTargetAtFirst(command[3], dflt, username, host);
    }
    command
  }

  /** `main` with `--tag`, `--user`, the positional value and the unparsed arguments as parameters. */
  function Main(tag: string, user: string, arg: string, unparsed: seq<string>,
                describe: seq<Filter> -> Response): (run: Run)
    ensures run.query == Filters(tag, Some(SplitTarget(arg, user).value))
    ensures var h := GetHostName(describe(run.query));
      && (run.outcome.Raised? <==> h.Err?)
      && (h.Err? ==> run.outcome == Raised(h.error))
      && (run.outcome.Exit? <==> h == Ok(None))
      && (run.outcome.Exit? ==> run.outcome == Exit(1, [NoHostsMatched]))
      && (run.outcome.Exec? <==> h.Ok? && h.value.Some?)
  {
    var target := SplitTarget(arg, user);
    var query := Filters(tag, Some(target.value));
    var outcome :=
      match GetHostName(describe(query))
      case Err(e) => Raised(e)
      case Ok(h) =>
        if h.None? || h.value == "" then Exit(1, [NoHostsMatched])
        else
          var command := SshCommand(target.username, h.value, unparsed);
          Exec(command[0], command[1..], ["ec2-ssh connecting to " + h.value]);
    Run(query, outcome)
  }

  /**
   * When `main` execs, it writes the connecting notice and calls
   * `os.execlp(*command)`: the file is "ssh" and the new process's argument
   * vector is the rest of `command`. Its argv[0] is therefore the first "-t",
   * so ssh parses one "-t", then the target `username@host`, then exactly the
   * unparsed arguments.
   */
  lemma MainCommand(tag: string, user: string, arg: string, unparsed: seq<string>,
                    describe: seq<Filter> -> Response)
    ensures var run := Main(tag, user, arg, unparsed, describe);
      var t := SplitTarget(arg, user);
      run.outcome.Exec? ==>
        var host := GetHostName(describe(run.query)).value.value;
        && [run.outcome.file] + run.outcome.argv == SshCommand(t.username, host, unparsed)
        && run.outcome.file == "ssh"
        && run.outcome.argv[0] == "-t"
        && run.outcome.argv[1..] == ["-t", t.username + "@" + host] + unparsed
        && run.outcome.stderr == ["ec2-ssh connecting to " + host]
  {
    var run := Main(tag, user, arg, unparsed, describe);
    var t := SplitTarget(arg, user);
    if run.outcome.Exec? {
      var host := GetHostName(describe(run.query)).value.value;
      CommandSplit(t.username, host, unparsed);
    }
  }

  lemma CommandSplit(username: string, host: string, unparsed: seq<string>)
    ensures var command := SshCommand(username, host, unparsed);
      && [command[0]] + command[1..] == command
      && command[0] == "ssh" && command[1] == "-t"
      && command[1..][1..] == ["-t", username + "@" + host] + unparsed
  {
    var command := SshCommand(username, host, unparsed);
    assert command == ["ssh", "-t", "-t", username + "@" + host] + unparsed;
    assert [command[0]] + command[1..] == command;
  }

  /** With no running instance in the response, `main` reports "no hosts matched", exits 1 and execs nothing. */
  lemma MainNoHosts(tag: string, user: string, arg: string, unparsed: seq<string>,
                    describe: seq<Filter> -> Response)
    requires var query := Filters(tag, Some(SplitTarget(arg, user).value));
      forall i :: i in Flatten(describe(query)) ==> !Kept(i.state)
    ensures Main(tag, user, arg, unparsed, describe).outcome == Exit(1, [NoHostsMatched])
  {
    var resp := describe(Filters(tag, Some(SplitTarget(arg, user).value)));
    var insts := Flatten(resp);
    assert forall j :: 0 <= j < |insts| ==> insts[j] in insts;
    assert KeptIds(insts) == [] || KeptIds(insts)[0] in KeptIds(insts);
    CollectSucceeds(Flatten(resp));
    GetHostNameIsFirstInstance(resp);
  }

  /**
   * One running instance with a public address P, all of whose read
   * attributes are present: `main` connects to `username@P`.
   */
  lemma MainSingleInstance(tag: string, user: string, arg: string, unparsed: seq<string>,
                           describe: seq<Filter> -> Response, i: RawInstance)
    requires var insts := Flatten(describe(Filters(tag, Some(SplitTarget(arg, user).value))));
      i in insts && forall x :: x in insts && Kept(x.state) ==> x == i
    requires Kept(i.state) && Project(i).Ok? && i.publicIpAddress.value != ""
    ensures Main(tag, user, arg, unparsed, describe).outcome
         == Exec("ssh", SshCommand(SplitTarget(arg, user).username, i.publicIpAddress.value, unparsed)[1..],
                 ["ec2-ssh connecting to " + i.publicIpAddress.value])
  {
    var resp := describe(Filters(tag, Some(SplitTarget(arg, user).value)));
    var insts := Flatten(resp);
    var ids := KeptIds(insts);
    assert i.instanceId in ids;
    assert ids[0] in ids;
    assert ids[0] == i.instanceId;
    CollectSucceeds(insts);
    GetHostNameIsFirstInstance(resp);
  }

  // ------------------------------------------------------------- host

  /** `'\t'.join(parts)`: the parts with one separator between neighbours. */
  function Join(parts: seq<string>, sep: char): string
    requires |parts| > 0
  {
    if |parts| == 1 then parts[0] else parts[0] + [sep] + Join(parts[1..], sep)
  }

  /** `s.split(sep)`: the runs of `s` between separators, empty runs included. */
  function SplitOn(s: string, sep: char): (r: seq<string>)
    ensures |r| > 0
  {
    if s == [] then [""]
    else
      var rest := SplitOn(s[1..], sep);
      if s[0] == sep then [""] + rest else [[s[0]] + rest[0]] + rest[1..]
  }

  lemma {:induction false} SplitOnPart(p: string, t: string, sep: char)
    requires sep !in p
    ensures SplitOn(p + t, sep) == [p + SplitOn(t, sep)[0]] + SplitOn(t, sep)[1..]
  {
    var tail := SplitOn(t, sep);
    if p == [] {
      assert p + t == t;
      assert p + tail[0] == tail[0];
      assert [p + tail[0]] + tail[1..] == tail;
    } else {
      SplitOnPart(p[1..], t, sep);
      assert (p + t)[1..] == p[1..] + t;
      assert (p + t)[0] == p[0] != sep;
      assert [p[0]] + (p[1..] + tail[0]) == p + tail[0];
    }
  }

  /** Splitting a joined line on a separator that no part holds gives the parts back. */
  lemma {:induction false} SplitJoin(parts: seq<string>, sep: char)
    requires |parts| > 0
    requires forall k :: 0 <= k < |parts| ==> sep !in parts[k]
    ensures SplitOn(Join(parts, sep), sep) == parts
  {
    if |parts| == 1 {
      SplitOnPart(parts[0], [], sep);
      assert parts[0] + [] == parts[0];
    } else {
      SplitJoin(parts[1..], sep);
      var tail := [sep] + Join(parts[1..], sep);
      assert Join(parts, sep) == parts[0] + tail;
      SplitOnPart(parts[0], tail, sep);
      assert tail[1..] == Join(parts[1..], sep);
      assert SplitOn(tail, sep) == [""] + parts[1..];
      assert parts[0] + "" == parts[0];
      assert [parts[0]] + parts[1..] == parts;
    }
  }

  /** The five columns `host` formats, read in order type, az, public, private, name. */
  function Columns(rec: Record): (r: Result<seq<string>, KeyError>)
    ensures r.Ok? <==> rec.instanceType.Some? && rec.zone.Some? && rec.publicAddr.Some?
                       && rec.privateAddr.Some? && rec.name.Some?
    ensures r.Err? ==> r.error.key in ["type", "az", "public", "private", "name"]
    ensures r.Ok? ==> r.value == [rec.instanceType.value, rec.zone.value, rec.publicAddr.value,
                                  rec.privateAddr.value, rec.name.value]
    // the KeyError names the first missing field in argument order
    ensures rec.instanceType.None? ==> r == Err(KeyError("type"))
    ensures rec.instanceType.Some? && rec.zone.None? ==> r == Err(KeyError("az"))
    ensures rec.instanceType.Some? && rec.zone.Some? && rec.publicAddr.None? ==> r == Err(KeyError("public"))
    ensures rec.instanceType.Some? && rec.zone.Some? && rec.publicAddr.Some? && rec.privateAddr.None?
        ==> r == Err(KeyError("private"))
    ensures rec.instanceType.Some? && rec.zone.Some? && rec.publicAddr.Some? && rec.privateAddr.Some?
            && rec.name.None?
        ==> r == Err(KeyError("name"))
  {
    if rec.instanceType.None? then Err(KeyError("type"))
    else if rec.zone.None? then Err(KeyError("az"))
    else if rec.publicAddr.None? then Err(KeyError("public"))
    else if rec.privateAddr.None? then Err(KeyError("private"))
    else if rec.name.None? then Err(KeyError("name"))
    else Ok([rec.instanceType.value, rec.zone.value, rec.publicAddr.value,
             rec.privateAddr.value, rec.name.value])
  }

  /**
   * `'{}\t{}\t{}\t{}\t{}'.format(...)` for one record. A line exists exactly
   * when all five fields are set, and splitting it on tabs gives type, az,
   * public, private and name in that order.
   */
  function Line(rec: Record): (r: Result<string, KeyError>)
    ensures r.Ok? <==> Columns(rec).Ok?
    ensures r.Ok? ==> r.value == rec.instanceType.value + "\t" + rec.zone.value + "\t" + rec.publicAddr.value
                                 + "\t" + rec.privateAddr.value + "\t" + rec.name.value
    ensures r.Ok? && '\t' !in rec.instanceType.value && '\t' !in rec.zone.value
            && '\t' !in rec.publicAddr.value && '\t' !in rec.privateAddr.value && '\t' !in rec.name.value
        ==> SplitOn(r.value, '\t') == [rec.instanceType.value, rec.zone.value, rec.publicAddr.value,
                                       rec.privateAddr.value, rec.name.value]
  {
    match Columns(rec)
    case Err(e) => Err(e)
    case Ok(cols) =>
      assert (forall k :: 0 <= k < |cols| ==> '\t' !in cols[k]) ==> SplitOn(Join(cols, '\t'), '\t') == cols by {
        if forall k :: 0 <= k < |cols| ==> '\t' !in cols[k] {
          SplitJoin(cols, '\t');
        }
      }
      JoinFive(cols, '\t');
      Ok(Join(cols, '\t'))
  }

  lemma JoinFive(cols: seq<string>, sep: char)
    requires |cols| == 5
    ensures Join(cols, sep) == cols[0] + [sep] + cols[1] + [sep] + cols[2] + [sep] + cols[3] + [sep] + cols[4]
  {
    var t1, t2, t3 := cols[1..], cols[2..], cols[3..];
    assert t1[1..] == t2 && t2[1..] == t3 && t3[1..] == [cols[4]];
    assert Join(t3, sep) == cols[3] + [sep] + cols[4];
    assert Join(t2, sep) == cols[2] + [sep] + (cols[3] + [sep] + cols[4]);
    assert Join(t1, sep) == cols[1] + [sep] + (cols[2] + [sep] + (cols[3] + [sep] + cols[4]));
  }

  /** What the loop of `host` printed, and the KeyError that stopped it, if any. */
  datatype Printed = Printed(lines: seq<string>, error: Option<KeyError>)

  /** The loop of `host`: one line per entry in iteration order, until an entry lacks a field. */
  function PrintLines(d: Dict<Record>): (out: Printed)
    ensures |out.lines| <= |d|
    ensures forall k :: 0 <= k < |out.lines| ==> Line(d[k].1) == Ok(out.lines[k])
    ensures out.error.None? ==> |out.lines| == |d|
    ensures out.error.Some? ==> |out.lines| < |d| && Line(d[|out.lines|].1) == Err(out.error.value)
  {
    if d == [] then Printed([], None)
    else match Line(d[0].1)
      case Err(e) => Printed([], Some(e))
      case Ok(l) =>
        var rest := PrintLines(d[1..]);
        Printed([l] + rest.lines, rest.error)
  }

  /** The filters `host` sent to DescribeInstances, and what it printed. */
  datatype Listing = Listing(query: seq<Filter>, printed: Printed)

  /** `host` with `--tag` and the optional positional value as parameters. */
  function Host(tag: string, value: Option<string>, describe: seq<Filter> -> Response): (listing: Listing)
    ensures listing.query == Filters(tag, value)
    ensures var n := Normalize(describe(listing.query));
      && (n.Err? ==> listing.printed == Printed([], Some(n.error)))
      && (n.Ok? ==> |listing.printed.lines| <= |n.value|)
      && (n.Ok? ==> forall k :: 0 <= k < |listing.printed.lines| ==>
                      Line(n.value[k].1) == Ok(listing.printed.lines[k]))
      && (n.Ok? && listing.printed.error.None? ==> |listing.printed.lines| == |n.value|)
      && (n.Ok? && listing.printed.error.Some? ==>
            && |listing.printed.lines| < |n.value|
            && Line(n.value[|listing.printed.lines|].1) == Err(listing.printed.error.value))
    ensures listing.printed.error.None? ==>
      |listing.printed.lines| == |FirstOccurrences(KeptIds(Flatten(describe(listing.query))))|
  {
    var query := Filters(tag, value);
    match Normalize(describe(query))
    case Err(e) => Listing(query, Printed([], Some(e)))
    case Ok(d) =>
      CollectKeys(Flatten(describe(query)));
      Listing(query, PrintLines(d))
  }

  /** Every running instance has the attributes `get_instances` reads and the fields `host` prints. */
  ghost predicate AllPrintable(insts: seq<RawInstance>)
  {
    forall j :: 0 <= j < |insts| && Kept(insts[j].state) ==>
      Project(insts[j]).Ok? && Line(Project(insts[j]).value).Ok?
  }

  /**
   * When every running instance carries all the attributes `host` prints,
   * the loop prints one line per distinct running instance id, in order of
   * first appearance, and each line is the record of the last instance with
   * that id.
   */
  lemma PrintsEveryInstance(insts: seq<RawInstance>)
    requires AllPrintable(insts)
    ensures Collect(insts).Ok?
    ensures var ids := FirstOccurrences(KeptIds(insts));
      var out := PrintLines(Collect(insts).value);
      && out.error.None?
      && |out.lines| == |ids|
      && forall k :: 0 <= k < |ids| ==>
           LastKept(insts, ids[k]).Some? && Line(Project(LastKept(insts, ids[k]).value).value) == Ok(out.lines[k])
  {
    CollectSucceeds(insts);
    var d := Collect(insts).value;
    CollectKeys(insts);
    var ids := FirstOccurrences(KeptIds(insts));
    forall k | 0 <= k < |d|
      ensures && LastKept(insts, ids[k]).Some?
              && d[k].1 == Project(LastKept(insts, ids[k]).value).value
              && Line(d[k].1).Ok?
    {
      CollectEntry(insts, k);
      var i := LastKept(insts, ids[k]).value;
      var j :| 0 <= j < |insts| && insts[j] == i;
    }
  }

  /** `host` lists every running instance (the response to its filters) once, as above. */
  lemma HostListsEveryInstance(tag: string, value: Option<string>, describe: seq<Filter> -> Response)
    requires AllPrintable(Flatten(describe(Filters(tag, value))))
    ensures var insts := Flatten(describe(Filters(tag, value)));
      var ids := FirstOccurrences(KeptIds(insts));
      var out := Host(tag, value, describe).printed;
      && out.error.None?
      && |out.lines| == |ids|
      && forall k :: 0 <= k < |ids| ==>
           LastKept(insts, ids[k]).Some? && Line(Project(LastKept(insts, ids[k]).value).value) == Ok(out.lines[k])
  {
    PrintsEveryInstance(Flatten(describe(Filters(tag, value))));
  }
}
