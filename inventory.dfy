/**
 * `get_instances`: the filter sent to EC2's DescribeInstances and the
 * normalisation of its response into a dictionary keyed by instance id.
 * The network call itself is not modelled: its response is an input.
 */
module Inventory {
  import opened Wrappers
  import opened PyDict

  /** One `{'Key': ..., 'Value': ...}` element of an instance's `Tags`. */
  datatype Tag = Tag(key: string, value: string)

  /**
   * One element of `Reservations[*].Instances[*]`. An attribute that is None
   * is a key the response does not carry, so reading it raises KeyError;
   * Some("") is present but falsy. `availabilityZone` stands for
   * `Placement.AvailabilityZone`.
   */
  datatype RawInstance = RawInstance(
    instanceId: string,
    state: string,
    publicIpAddress: Option<string>,
    privateIpAddress: Option<string>,
    instanceType: Option<string>,
    availabilityZone: Option<string>,
    tags: Option<seq<Tag>>)

  type Reservation = seq<RawInstance>

  /** The `Reservations` list of a DescribeInstances response. */
  type Response = seq<Reservation>

  /** Python's KeyError, carrying the missing key. */
  datatype KeyError = KeyError(key: string)

  /** One DescribeInstances filter, `{'Name': name, 'Values': values}`. */
  datatype Filter = Filter(name: string, values: seq<string>)

  /** The normalised record of one instance: each field is present only when set. */
  datatype Record = Record(
    publicAddr: Option<string>,   // 'public'
    privateAddr: Option<string>,  // 'private'
    instanceType: Option<string>, // 'type'
    zone: Option<string>,         // 'az'
    name: Option<string>)         // 'name'

  const EmptyRecord := Record(None, None, None, None, None)

  // ---------------------------------------------------------------- filters

  /** The filter list: empty for a missing or empty value, else one `tag:<tag>` filter. */
  function Filters(tag: string, value: Option<string>): (r: seq<Filter>)
    ensures |r| <= 1
    ensures |r| == 1 <==> value.Some? && value.value != ""
    ensures |r| == 1 ==> |r[0].name| >= 4 && r[0].name[..4] == "tag:" && r[0].name[4..] == tag
    ensures |r| == 1 ==> r[0].values == [value.value]
  {
    if value.Some? && value.value != "" then [Filter("tag:" + tag, [value.value])] else []
  }

  // ------------------------------------------------------------ state test

  /** `needle` occurs in `hay` starting at position `i`. */
  ghost predicate OccursAt(needle: string, hay: string, i: int)
  {
    0 <= i <= |hay| - |needle| && hay[i..i + |needle|] == needle
  }

  /** `needle` occurs as a contiguous run of `hay`. */
  ghost predicate IsSubstring(needle: string, hay: string)
  {
    exists i :: OccursAt(needle, hay, i)
  }

  /** Python's `needle in hay` on two strings. */
  function Contains(hay: string, needle: string): (b: bool)
    ensures b <==> IsSubstring(needle, hay)
    decreases |hay|
  {
    if |needle| > |hay| then false
    else if hay[..|needle|] == needle then assert OccursAt(needle, hay, 0); true
    else
      var b := Contains(hay[1..], needle);
      assert IsSubstring(needle, hay[1..]) ==> IsSubstring(needle, hay) by {
        if IsSubstring(needle, hay[1..]) {
          var i :| OccursAt(needle, hay[1..], i);
          assert hay[i + 1..i + 1 + |needle|] == needle;
          assert OccursAt(needle, hay, i + 1);
        }
      }
      assert IsSubstring(needle, hay) ==> IsSubstring(needle, hay[1..]) by {
        if IsSubstring(needle, hay) {
          var i :| OccursAt(needle, hay, i);
          assert i != 0;
          assert hay[1..][i - 1..i - 1 + |needle|] == needle;
          assert OccursAt(needle, hay[1..], i - 1);
        }
      }
      b
  }

  /**
   * The test `state not in ('running')` skips an instance. `('running')` is a
   * string, not a tuple, so an instance is kept when its state name is a
   * substring of "running".
   */
  predicate Kept(state: string)
    ensures Kept(state) <==> IsSubstring(state, "running")
  {
    Contains("running", state)
  }

  /** Of the instance states EC2 reports, only "running" passes the test. */
  lemma OnlyRunningIsKept()
    ensures Kept("running")
    ensures !Kept("pending") && !Kept("stopping") && !Kept("stopped")
    ensures !Kept("shutting-down") && !Kept("terminated")
  {
  }

  /** The substring test also lets through strings that are no EC2 state, such as "" and "run". */
  lemma SubstringsOfRunningAreKept()
    ensures Kept("") && Kept("run") && Kept("nin")
    ensures forall s :: Kept(s) && |s| >= 7 ==> s == "running"
  {
  }

  // ------------------------------------------------------ one instance

  /** The value of the last tag whose key is exactly "Name", if any. */
  function NameTag(tags: seq<Tag>): (r: Option<string>)
    ensures r.None? <==> forall k :: 0 <= k < |tags| ==> tags[k].key != "Name"
    ensures r.Some? ==> exists k :: 0 <= k < |tags| && tags[k] == Tag("Name", r.value)
                                    && forall j :: k < j < |tags| ==> tags[j].key != "Name"
  {
    if tags == [] then None
    else if tags[|tags| - 1].key == "Name" then Some(tags[|tags| - 1].value)
    else
      var front := tags[..|tags| - 1];
      var r := NameTag(front);
      assert forall k :: 0 <= k < |front| ==> front[k] == tags[k];
      assert r.Some? ==> exists k :: 0 <= k < |tags| && tags[k] == Tag("Name", r.value)
                                     && forall j :: k < j < |tags| ==> tags[j].key != "Name" by {
        if r.Some? {
          var k :| 0 <= k < |front| && front[k] == Tag("Name", r.value)
                   && forall j :: k < j < |front| ==> front[j].key != "Name";
          assert tags[k] == front[k];
          forall j | k < j < |tags| ensures tags[j].key != "Name" {
            if j < |front| {
              assert tags[j] == front[j];
            }
          }
        }
      }
      r
  }

  /** An attribute read by `if i[attr]:` and copied only when truthy. */
  function Truthy(a: Option<string>): Option<string>
  {
    if a.Some? && a.value != "" then a else None
  }

  /**
   * The record the loop body builds for one running instance, or the KeyError
   * its first read of an absent attribute raises.
   */
  function Project(i: RawInstance): (r: Result<Record, KeyError>)
    ensures r.Ok? <==> i.publicIpAddress.Some? && i.privateIpAddress.Some? && i.instanceType.Some?
                       && i.availabilityZone.Some? && i.tags.Some?
    ensures r.Err? ==> r.error.key in ["PublicIpAddress", "PrivateIpAddress", "InstanceType",
                                       "AvailabilityZone", "Tags"]
    // the KeyError names the first absent attribute in reading order
    ensures i.publicIpAddress.None? ==> r == Err(KeyError("PublicIpAddress"))
    ensures i.publicIpAddress.Some? && i.privateIpAddress.None? ==> r == Err(KeyError("PrivateIpAddress"))
    ensures i.publicIpAddress.Some? && i.privateIpAddress.Some? && i.instanceType.None?
        ==> r == Err(KeyError("InstanceType"))
    ensures i.publicIpAddress.Some? && i.privateIpAddress.Some? && i.instanceType.Some?
            && i.availabilityZone.None?
        ==> r == Err(KeyError("AvailabilityZone"))
    ensures i.publicIpAddress.Some? && i.privateIpAddress.Some? && i.instanceType.Some?
            && i.availabilityZone.Some? && i.tags.None?
        ==> r == Err(KeyError("Tags"))
  {
    if i.publicIpAddress.None? then Err(KeyError("PublicIpAddress"))
    else if i.privateIpAddress.None? then Err(KeyError("PrivateIpAddress"))
    else if i.instanceType.None? then Err(KeyError("InstanceType"))
    else if i.availabilityZone.None? then Err(KeyError("AvailabilityZone"))
    else if i.tags.None? then Err(KeyError("Tags"))
    else Ok(Record(Truthy(i.publicIpAddress), Truthy(i.privateIpAddress),
                   Truthy(i.instanceType), Truthy(i.availabilityZone),
                   NameTag(i.tags.value)))
  }

  /** The fields of a projected record are present exactly when the attribute is truthy, and then equal it. */
  lemma ProjectFields(i: RawInstance)
    requires Project(i).Ok?
    ensures var rec := Project(i).value;
      && (rec.publicAddr.Some? <==> i.publicIpAddress.value != "")
      && (rec.publicAddr.Some? ==> rec.publicAddr == i.publicIpAddress)
      && (rec.privateAddr.Some? <==> i.privateIpAddress.value != "")
      && (rec.privateAddr.Some? ==> rec.privateAddr == i.privateIpAddress)
      && (rec.instanceType.Some? <==> i.instanceType.value != "")
      && (rec.instanceType.Some? ==> rec.instanceType == i.instanceType)
      && (rec.zone.Some? <==> i.availabilityZone.value != "")
      && (rec.zone.Some? ==> rec.zone == i.availabilityZone)
      && (rec.name.Some? <==> exists k :: 0 <= k < |i.tags.value| && i.tags.value[k].key == "Name")
      && rec.name == NameTag(i.tags.value)
  {
  }

  // ------------------------------------------------- the whole response

  /** `Reservations[*].Instances[*]` in traversal order. */
  function Flatten(resp: Response): seq<RawInstance>
  {
    if resp == [] then [] else Flatten(resp[..|resp| - 1]) + resp[|resp| - 1]
  }

  /** One iteration of the inner loop on the dictionary built so far. */
  function Step(d: Dict<Record>, i: RawInstance): Result<Dict<Record>, KeyError>
  {
    if !Kept(i.state) then Ok(d)
    else match Project(i)
      case Err(e) => Err(e)
      case Ok(rec) => Ok(Set(d, i.instanceId, rec))
  }

  /** The dictionary after visiting `insts` in order, or the first KeyError. */
  function Collect(insts: seq<RawInstance>): (r: Result<Dict<Record>, KeyError>)
    ensures r.Ok? ==> |r.value| <= |insts| && Distinct(Keys(r.value))
  {
    if insts == [] then Ok([])
    else match Collect(insts[..|insts| - 1])
      case Err(e) => Err(e)
      case Ok(d) => Step(d, insts[|insts| - 1])
  }

  /** What `get_instances` returns for a DescribeInstances response. */
  function Normalize(resp: Response): (r: Result<Dict<Record>, KeyError>)
    ensures r.Ok? ==> forall id :: id in Keys(r.value) <==> id in KeptIds(Flatten(resp))
  {
    var r := Collect(Flatten(resp));
    if r.Ok? then CollectKeys(Flatten(resp)); r else r
  }

  // ------------------------------------------- reference definitions

  /** Ids of the instances that pass the state test, in traversal order. */
  function KeptIds(insts: seq<RawInstance>): (r: seq<string>)
    ensures forall id :: id in r <==>
      exists j :: 0 <= j < |insts| && Kept(insts[j].state) && insts[j].instanceId == id
  {
    if insts == [] then []
    else
      var p := insts[..|insts| - 1];
      var x := insts[|insts| - 1];
      assert forall j :: 0 <= j < |p| ==> p[j] == insts[j];
      KeptIds(p) + (if Kept(x.state) then [x.instanceId] else [])
  }

  /** `s` with every repeated element after its first occurrence removed. */
  function FirstOccurrences(s: seq<string>): (r: seq<string>)
    ensures forall x :: x in r <==> x in s
    ensures Distinct(r)
    ensures |s| > 0 ==> |r| > 0 && r[0] == s[0]
  {
    if s == [] then []
    else
      var p := FirstOccurrences(s[..|s| - 1]);
      assert forall x :: x in s <==> x in s[..|s| - 1] || x == s[|s| - 1];
      if s[|s| - 1] in p then p else p + [s[|s| - 1]]
  }

  /** The last instance with id `id` that passes the state test. */
  function LastKept(insts: seq<RawInstance>, id: string): (r: Option<RawInstance>)
    ensures r.Some? ==> Kept(r.value.state) && r.value.instanceId == id && r.value in insts
    ensures r.None? <==> id !in KeptIds(insts)
  {
    if insts == [] then None
    else
      var x := insts[|insts| - 1];
      if Kept(x.state) && x.instanceId == id then Some(x) else LastKept(insts[..|insts| - 1], id)
  }

  // ------------------------------------------------ properties of Collect

  /** The keys are the kept ids, each at the position of its first occurrence. */
  lemma {:induction false} CollectKeys(insts: seq<RawInstance>)
    requires Collect(insts).Ok?
    ensures Keys(Collect(insts).value) == FirstOccurrences(KeptIds(insts))
    ensures Distinct(Keys(Collect(insts).value))
  {
    if insts != [] {
      var p := insts[..|insts| - 1];
      var x := insts[|insts| - 1];
      CollectKeys(p);
      if Kept(x.state) {
        var s := KeptIds(p) + [x.instanceId];
        assert KeptIds(insts) == s;
        assert s[..|s| - 1] == KeptIds(p);
      } else {
        assert KeptIds(insts) == KeptIds(p) + [];
        assert KeptIds(p) + [] == KeptIds(p);
      }
    }
  }

  /** Each key maps to the record of the LAST kept instance with that id. */
  lemma {:induction false} CollectGet(insts: seq<RawInstance>, id: string)
    requires Collect(insts).Ok?
    ensures LastKept(insts, id).None? ==> Get(Collect(insts).value, id).None?
    ensures LastKept(insts, id).Some? ==>
      && Project(LastKept(insts, id).value).Ok?
      && Get(Collect(insts).value, id) == Some(Project(LastKept(insts, id).value).value)
  {
    if insts != [] {
      CollectGet(insts[..|insts| - 1], id);
    }
  }

  /** Entry `k` holds the `k`-th distinct running id and the record of the last instance with that id. */
  lemma CollectEntry(insts: seq<RawInstance>, k: nat)
    requires Collect(insts).Ok? && k < |Collect(insts).value|
    ensures var d := Collect(insts).value;
      var ids := FirstOccurrences(KeptIds(insts));
      && k < |ids|
      && d[k].0 == ids[k]
      && LastKept(insts, ids[k]).Some?
      && Project(LastKept(insts, ids[k]).value).Ok?
      && d[k].1 == Project(LastKept(insts, ids[k]).value).value
  {
    var d := Collect(insts).value;
    CollectKeys(insts);
    var ids := FirstOccurrences(KeptIds(insts));
    assert Keys(d)[k] == ids[k];
    GetAt(d, k);
    CollectGet(insts, ids[k]);
  }

  /** The dictionary is built exactly when no kept instance lacks an attribute that is read. */
  lemma {:induction false} CollectSucceeds(insts: seq<RawInstance>)
    ensures Collect(insts).Ok? <==>
      forall j :: 0 <= j < |insts| && Kept(insts[j].state) ==> Project(insts[j]).Ok?
  {
    if insts != [] {
      var p := insts[..|insts| - 1];
      CollectSucceeds(p);
      assert forall j :: 0 <= j < |p| ==> p[j] == insts[j];
    }
  }

  /** A KeyError comes from the first kept instance that lacks an attribute. */
  lemma {:induction false} CollectFails(insts: seq<RawInstance>, e: KeyError)
    requires Collect(insts) == Err(e)
    ensures exists j :: 0 <= j < |insts| && Kept(insts[j].state) && Project(insts[j]) == Err(e)
                        && (forall k :: 0 <= k < j && Kept(insts[k].state) ==> Project(insts[k]).Ok?)
  {
    var p := insts[..|insts| - 1];
    assert forall j :: 0 <= j < |p| ==> p[j] == insts[j];
    if Collect(p).Err? {
      CollectFails(p, e);
      var j :| 0 <= j < |p| && Kept(p[j].state) && Project(p[j]) == Err(e)
        && forall k :: 0 <= k < j && Kept(p[k].state) ==> Project(p[k]).Ok?;
      assert Kept(insts[j].state) && Project(insts[j]) == Err(e);
    } else {
      CollectSucceeds(p);
      assert Kept(insts[|p|].state) && Project(insts[|p|]) == Err(e);
    }
  }

  /** Once a KeyError has been raised, later instances do not matter. */
  lemma {:induction false} CollectErrSticky(p: seq<RawInstance>, q: seq<RawInstance>, e: KeyError)
    requires Collect(p) == Err(e)
    ensures Collect(p + q) == Err(e)
  {
    if q == [] {
      assert p + q == p;
    } else {
      var q' := q[..|q| - 1];
      CollectErrSticky(p, q', e);
      assert (p + q)[..|p + q| - 1] == p + q';
    }
  }

  lemma {:induction false} FlattenAppend(a: Response, b: Response)
    ensures Flatten(a + b) == Flatten(a) + Flatten(b)
  {
    if b == [] {
      assert a + b == a;
    } else {
      FlattenAppend(a, b[..|b| - 1]);
      assert (a + b)[..|a + b| - 1] == a + b[..|b| - 1];
    }
  }

  // ------------------------------------------------------ the loop itself

  /**
   * The body of the inner loop for a running instance: start from an empty
   * record, copy each truthy attribute, then scan the tags for "Name".
   * Reading an absent attribute raises KeyError.
   */
  method ReadRecord(i: RawInstance) returns (r: Result<Record, KeyError>)
    ensures r == Project(i)
  {
    var rec := EmptyRecord;
    if i.publicIpAddress.None? {
      return Err(KeyError("PublicIpAddress"));
    }
    if i.publicIpAddress.value != "" {
      rec := rec.(publicAddr := i.publicIpAddress);
    }
    if i.privateIpAddress.None? {
      return Err(KeyError("PrivateIpAddress"));
    }
    if i.privateIpAddress.value != "" {
      rec := rec.(privateAddr := i.privateIpAddress);
    }
    if i.instanceType.None? {
      return Err(KeyError("InstanceType"));
    }
    if i.instanceType.value != "" {
      rec := rec.(instanceType := i.instanceType);
    }
    if i.availabilityZone.None? {
      return Err(KeyError("AvailabilityZone"));
    }
    if i.availabilityZone.value != "" {
      rec := rec.(zone := i.availabilityZone);
    }
    if i.tags.None? {
      return Err(KeyError("Tags"));
    }
    var tags := i.tags.value;
    if |tags| > 0 {
      ghost var before := rec;
      for t := 0 to |tags|
        invariant rec == before.(name := NameTag(tags[..t]))
      {
        assert tags[..t + 1][..t] == tags[..t];
        if tags[t].key == "Name" {
          rec := rec.(name := Some(tags[t].value));
        }
      }
      assert tags[..|tags|] == tags;
    }
    return Ok(rec);
  }

  /** Visiting instance `m` of a reservation is one `Step` on the dictionary built so far. */
  lemma VisitOne(done: seq<RawInstance>, reservation: Reservation, m: nat, d: Dict<Record>)
    requires m < |reservation| && Collect(done + reservation[..m]) == Ok(d)
    ensures Collect(done + reservation[..m + 1]) == Step(d, reservation[m])
  {
    var p := done + reservation[..m];
    assert done + reservation[..m + 1] == p + [reservation[m]];
    assert (p + [reservation[m]])[..|p|] == p;
  }

  /** A KeyError at instance `m` of a reservation is the result for the whole reservation. */
  lemma AbortReservation(done: seq<RawInstance>, reservation: Reservation, m: nat, e: KeyError)
    requires m < |reservation| && Collect(done + reservation[..m + 1]) == Err(e)
    ensures Collect(done + reservation) == Err(e)
  {
    SplitAfter(done, reservation, m + 1);
    CollectErrSticky(done + reservation[..m + 1], reservation[m + 1..], e);
  }

  lemma SplitAfter<T>(a: seq<T>, b: seq<T>, k: nat)
    requires k <= |b|
    ensures a + b == (a + b[..k]) + b[k..]
  {
    assert b == b[..k] + b[k..];
  }

  /**
   * The inner loop over one reservation's instances, continuing from the
   * dictionary `instances` that the instances `done` produced.
   */
  method VisitReservation(ghost done: seq<RawInstance>, instances: Dict<Record>, reservation: Reservation)
    returns (r: Result<Dict<Record>, KeyError>)
    requires Collect(done) == Ok(instances)
    ensures r == Collect(done + reservation)
  {
    var acc := instances;
    assert done + reservation[..0] == done;
    for m := 0 to |reservation|
      invariant Collect(done + reservation[..m]) == Ok(acc)
    {
      var i := reservation[m];
      VisitOne(done, reservation, m, acc);
      if Kept(i.state) {
        var rec := ReadRecord(i);
        if rec.Err? {
          AbortReservation(done, reservation, m, rec.error);
          return Err(rec.error);
        }
        acc := Set(acc, i.instanceId, rec.value);
      }
    }
    assert reservation[..|reservation|] == reservation;
    return Ok(acc);
  }

  /**
   * `get_instances` after the DescribeInstances call: walk every instance of
   * every reservation, skip those whose state fails the test, and store a
   * record of the others under their id.
   */
  method GetInstances(resp: Response) returns (r: Result<Dict<Record>, KeyError>)
    ensures r == Normalize(resp)
  {
    var instances: Dict<Record> := [];
    for n := 0 to |resp|
      invariant Collect(Flatten(resp[..n])) == Ok(instances)
    {
      assert Flatten(resp[..n + 1]) == Flatten(resp[..n]) + resp[n] by {
        assert resp[..n + 1][..n] == resp[..n];
      }
      var next := VisitReservation(Flatten(resp[..n]), instances, resp[n]);
      if next.Err? {
        assert resp == resp[..n + 1] + resp[n + 1..];
        FlattenAppend(resp[..n + 1], resp[n + 1..]);
        CollectErrSticky(Flatten(resp[..n + 1]), Flatten(resp[n + 1..]), next.error);
        return next;
      }
      instances := next.value;
    }
    assert resp[..|resp|] == resp;
    return Ok(instances);
  }
}
