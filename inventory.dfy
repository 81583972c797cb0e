/** The per-instance extraction inside DescribeInstances: every page of the inventory
    listing, every reservation of a page and every instance of a reservation. Every
    instance's type is written into one RawData value that is reused for all instances;
    for an instance in state "running" its tags are then read into that value and a copy
    is appended. */
module Inventory {
  import opened Seqs
  import opened Types

  datatype Tag = Tag(key: string, value: string)
  datatype Instance = Instance(instanceType: string, state: string, tags: seq<Tag>)
  datatype Reservation = Reservation(instances: seq<Instance>)
  /** One already-fetched response page of the listing. */
  datatype Page = Page(reservations: seq<Reservation>)

  const Running := "running"
  const RoleKey := "Role"
  const EnvironmentKey := "Environment"

  /** The record value before any instance is seen: every field empty. */
  const Blank := RawData("", "", "")

  // ---------- Flattening pages into one instance sequence ----------

  function ReservationInstances(rs: seq<Reservation>): seq<Instance>
  {
    if rs == [] then [] else ReservationInstances(DropLast(rs)) + Last(rs).instances
  }

  /** All instances of all pages, in listing order. */
  function Flatten(pages: seq<Page>): seq<Instance>
  {
    if pages == [] then [] else Flatten(DropLast(pages)) + ReservationInstances(Last(pages).reservations)
  }

  // ---------- The step function of the extraction loop ----------

  /** One tag written into the record: an Environment tag sets the environment, a Role tag the role. */
  function ApplyTag(r: RawData, tag: Tag): RawData
  {
    if tag.key == EnvironmentKey then r.(environment := tag.value)
    else if tag.key == RoleKey then r.(role := tag.value)
    else r
  }

  function ApplyTags(r: RawData, tags: seq<Tag>): RawData
  {
    if tags == [] then r else ApplyTag(ApplyTags(r, DropLast(tags)), Last(tags))
  }

  /** One instance: the type is written first, then the tags only if the instance is running. */
  function Step(r: RawData, inst: Instance): RawData
  {
    var typed := r.(instanceType := inst.instanceType);
    if inst.state != Running then typed else ApplyTags(typed, inst.tags)
  }

  /** The reused record after a sequence of instances. */
  function Final(insts: seq<Instance>): RawData
  {
    if insts == [] then Blank else Step(Final(DropLast(insts)), Last(insts))
  }

  /** The records appended for a sequence of instances: a snapshot per running instance. */
  function Records(insts: seq<Instance>): seq<RawData>
  {
    if insts == [] then []
    else
      Records(DropLast(insts))
      + (if Last(insts).state == Running then [Step(Final(DropLast(insts)), Last(insts))] else [])
  }

  lemma StepSnoc(seen: seq<Instance>, inst: Instance)
    ensures Final(seen + [inst]) == Step(Final(seen), inst)
    ensures Records(seen + [inst]) == Records(seen) + (if inst.state == Running then [Step(Final(seen), inst)] else [])
  {
    SnocParts(seen, inst);
  }

  lemma ApplyTagsSnoc(r: RawData, tags: seq<Tag>, t: nat)
    requires t < |tags|
    ensures ApplyTags(r, tags[..t + 1]) == ApplyTag(ApplyTags(r, tags[..t]), tags[t])
  {
    SnocParts(tags[..t], tags[t]);
    assert tags[..t + 1] == tags[..t] + [tags[t]];
  }

  lemma ReservationsSnoc(rs: seq<Reservation>, r: nat)
    requires r < |rs|
    ensures ReservationInstances(rs[..r + 1]) == ReservationInstances(rs[..r]) + rs[r].instances
  {
    SnocParts(rs[..r], rs[r]);
    assert rs[..r + 1] == rs[..r] + [rs[r]];
  }

  lemma FlattenSnoc(pages: seq<Page>, p: nat)
    requires p < |pages|
    ensures Flatten(pages[..p + 1]) == Flatten(pages[..p]) + ReservationInstances(pages[p].reservations)
  {
    SnocParts(pages[..p], pages[p]);
    assert pages[..p + 1] == pages[..p] + [pages[p]];
  }

  /** The tag loop of one running instance: an Environment tag sets the environment, else a
      Role tag sets the role; other tags are ignored. */
  method ReadTags(rawData: RawData, tags: seq<Tag>) returns (r: RawData)
    ensures r == ApplyTags(rawData, tags)
  {
    r := rawData;
    for t := 0 to |tags|
      invariant r == ApplyTags(rawData, tags[..t])
    {
      var tag := tags[t];
      ApplyTagsSnoc(rawData, tags, t);
      if tag.key == EnvironmentKey {
        r := r.(environment := tag.value);
      } else if tag.key == RoleKey {
        r := r.(role := tag.value);
      }
    }
    assert tags[..|tags|] == tags;
  }

  /** The instance loop of one reservation: the type is written into the reused record for
      every instance; a running instance then has its tags read and a copy appended. */
  method ExtractInstances(instances: seq<Instance>, rawData0: RawData, rawDataSet0: seq<RawData>, ghost seen: seq<Instance>)
    returns (rawData: RawData, rawDataSet: seq<RawData>)
    requires rawData0 == Final(seen) && rawDataSet0 == Records(seen)
    ensures rawData == Final(seen + instances) && rawDataSet == Records(seen + instances)
  {
    rawData, rawDataSet := rawData0, rawDataSet0;
    assert seen + instances[..0] == seen;
    for i := 0 to |instances|
      invariant rawData == Final(seen + instances[..i]) && rawDataSet == Records(seen + instances[..i])
    {
      var instance := instances[i];
      StepSnoc(seen + instances[..i], instance);
      assert seen + instances[..i + 1] == (seen + instances[..i]) + [instance];
      rawData := rawData.(instanceType := instance.instanceType);
      if instance.state != Running {
        continue;
      }
      rawData := ReadTags(rawData, instance.tags);
      rawDataSet := rawDataSet + [rawData];
    }
    assert instances[..|instances|] == instances;
  }

  /** The model of DescribeInstances after every page has been fetched. */
  method DescribeInstances(pages: seq<Page>) returns (rawDataSet: seq<RawData>)
    ensures rawDataSet == Records(Flatten(pages))
  {
    rawDataSet := [];
    var rawData := Blank;
    ghost var seen: seq<Instance> := [];
    for p := 0 to |pages|
      invariant seen == Flatten(pages[..p])
      invariant rawData == Final(seen) && rawDataSet == Records(seen)
    {
      var reservations := pages[p].reservations;
      ghost var before := seen;
      for r := 0 to |reservations|
        invariant seen == before + ReservationInstances(reservations[..r])
        invariant rawData == Final(seen) && rawDataSet == Records(seen)
      {
        var instances := reservations[r].instances;
        rawData, rawDataSet := ExtractInstances(instances, rawData, rawDataSet, seen);
        seen := seen + instances;
        ReservationsSnoc(reservations, r);
      }
      assert reservations[..|reservations|] == reservations;
      FlattenSnoc(pages, p);
    }
    assert pages[..|pages|] == pages;
  }

  // ---------- A reference description of the records ----------

  /** The running instances, in order. */
  function RunningOnly(insts: seq<Instance>): (r: seq<Instance>)
    ensures forall k :: 0 <= k < |r| ==> r[k].state == Running
    ensures forall x :: x in r <==> x in insts && x.state == Running
  {
    if insts == [] then []
    else RunningOnly(DropLast(insts)) + (if Last(insts).state == Running then [Last(insts)] else [])
  }

  /** The tags of several instances, one after the other. */
  function TagsOf(insts: seq<Instance>): seq<Tag>
  {
    if insts == [] then [] else TagsOf(DropLast(insts)) + Last(insts).tags
  }

  /** The value of the last tag with `key`, or `dflt` when no tag has that key. */
  function LastValueOr(tags: seq<Tag>, key: string, dflt: string): string
  {
    if tags == [] then dflt
    else if Last(tags).key == key then Last(tags).value
    else LastValueOr(DropLast(tags), key, dflt)
  }

  /** The position of the last tag with `key`, or -1 when no tag has it. */
  function LastIndexOf(tags: seq<Tag>, key: string): (i: int)
    ensures -1 <= i < |tags|
    ensures i >= 0 ==> tags[i].key == key
    ensures forall j :: i < j < |tags| ==> tags[j].key != key
  {
    if tags == [] then -1
    else if Last(tags).key == key then |tags| - 1
    else LastIndexOf(DropLast(tags), key)
  }

  /** The value read for a key is the default when no tag has the key, and otherwise the
      value of the last tag with the key. */
  lemma {:induction false} LastValueOrMeaning(tags: seq<Tag>, key: string, dflt: string)
    ensures LastValueOr(tags, key, dflt) == if LastIndexOf(tags, key) < 0 then dflt else tags[LastIndexOf(tags, key)].value
  {
    if tags != [] && Last(tags).key != key {
      LastValueOrMeaning(DropLast(tags), key, dflt);
    }
  }

  /** Reading a concatenation of tag lists: the later list wins where it has the key. */
  lemma {:induction false} LastValueOrAppend(a: seq<Tag>, b: seq<Tag>, key: string, dflt: string)
    ensures LastValueOr(a + b, key, dflt) == LastValueOr(b, key, LastValueOr(a, key, dflt))
  {
    if b != [] {
      SnocParts(a + DropLast(b), Last(b));
      assert a + b == (a + DropLast(b)) + [Last(b)];
      LastValueOrAppend(a, DropLast(b), key, dflt);
    } else {
      assert a + b == a;
    }
  }

  /** Writing tags into a record sets its role and environment to the last such tag, if any. */
  lemma {:induction false} ApplyTagsReads(r: RawData, tags: seq<Tag>)
    ensures ApplyTags(r, tags).instanceType == r.instanceType
    ensures ApplyTags(r, tags).role == LastValueOr(tags, RoleKey, r.role)
    ensures ApplyTags(r, tags).environment == LastValueOr(tags, EnvironmentKey, r.environment)
  {
    if tags != [] {
      ApplyTagsReads(r, DropLast(tags));
    }
  }

  /** The reused record holds the last Role and Environment tag values of all running instances so far. */
  lemma {:induction false} FinalReads(insts: seq<Instance>)
    ensures Final(insts).role == LastValueOr(TagsOf(RunningOnly(insts)), RoleKey, "")
    ensures Final(insts).environment == LastValueOr(TagsOf(RunningOnly(insts)), EnvironmentKey, "")
  {
    if insts != [] {
      var init, inst := DropLast(insts), Last(insts);
      FinalReads(init);
      var typed := Final(init).(instanceType := inst.instanceType);
      if inst.state == Running {
        ApplyTagsReads(typed, inst.tags);
        SnocParts(RunningOnly(init), inst);
        assert RunningOnly(insts) == RunningOnly(init) + [inst];
        assert TagsOf(RunningOnly(insts)) == TagsOf(RunningOnly(init)) + inst.tags;
        assert Final(insts) == ApplyTags(typed, inst.tags);
        LastValueOrAppend(TagsOf(RunningOnly(init)), inst.tags, RoleKey, "");
        LastValueOrAppend(TagsOf(RunningOnly(init)), inst.tags, EnvironmentKey, "");
      } else {
        assert RunningOnly(insts) == RunningOnly(init);
        assert Final(insts) == typed;
      }
    }
  }

  /** What the k-th running instance should be recorded as under tag inheritance: its own
      type, and for Role and Environment the last matching tag among the running instances
      up to and including it, or "" when none had it. */
  function Snapshot(run: seq<Instance>, k: nat): RawData
    requires k < |run|
  {
    var upTo := run[..k + 1];
    RawData(run[k].instanceType, LastValueOr(TagsOf(upTo), RoleKey, ""), LastValueOr(TagsOf(upTo), EnvironmentKey, ""))
  }

  /** One record per running instance, in input order, each the snapshot of the tags seen so far. */
  lemma {:induction false} RecordsAreSnapshots(insts: seq<Instance>)
    ensures |Records(insts)| == |RunningOnly(insts)|
    ensures forall k :: 0 <= k < |Records(insts)| ==> Records(insts)[k] == Snapshot(RunningOnly(insts), k)
  {
    if insts != [] {
      var init, inst := DropLast(insts), Last(insts);
      RecordsAreSnapshots(init);
      var run, runInit := RunningOnly(insts), RunningOnly(init);
      var recs, recsInit := Records(insts), Records(init);
      if inst.state == Running {
        assert run == runInit + [inst];
        assert recs == recsInit + [Step(Final(init), inst)];
        NewestSnapshot(init, inst);
      } else {
        assert run == runInit && recs == recsInit;
      }
      forall k | 0 <= k < |recs| ensures recs[k] == Snapshot(run, k) {
        if k < |recsInit| {
          assert run[..k + 1] == runInit[..k + 1];
          assert Snapshot(run, k) == Snapshot(runInit, k);
        }
      }
    }
  }

  /** The record appended for a running instance is the snapshot at its own position. */
  lemma NewestSnapshot(init: seq<Instance>, inst: Instance)
    requires inst.state == Running
    ensures var run := RunningOnly(init) + [inst];
      Step(Final(init), inst) == Snapshot(run, |run| - 1)
  {
    var runInit := RunningOnly(init);
    var run := runInit + [inst];
    var typed := Final(init).(instanceType := inst.instanceType);
    FinalReads(init);
    ApplyTagsReads(typed, inst.tags);
    SnocParts(runInit, inst);
    assert run[..|run|] == run;
    assert TagsOf(run) == TagsOf(runInit) + inst.tags;
    LastValueOrAppend(TagsOf(runInit), inst.tags, RoleKey, "");
    LastValueOrAppend(TagsOf(runInit), inst.tags, EnvironmentKey, "");
  }

  /** Instances that are not running leave no record. */
  lemma NonRunningIgnored(insts: seq<Instance>, inst: Instance)
    requires inst.state != Running
    ensures Records(insts + [inst]) == Records(insts)
  {
    SnocParts(insts, inst);
  }

  // ---------- Intended behaviour: a fresh record per instance ----------

  /** A record built from one instance's own tags only; "" for a missing tag. */
  function FreshRecord(inst: Instance): RawData
  {
    RawData(inst.instanceType, LastValueOr(inst.tags, RoleKey, ""), LastValueOr(inst.tags, EnvironmentKey, ""))
  }

  /** Records as intended: one fresh record per running instance, in order. */
  function IntendedRecords(insts: seq<Instance>): (r: seq<RawData>)
    ensures |r| == |RunningOnly(insts)|
    ensures forall k :: 0 <= k < |r| ==> r[k] == FreshRecord(RunningOnly(insts)[k])
  {
    var run := RunningOnly(insts);
    seq(|run|, k requires 0 <= k < |run| => FreshRecord(run[k]))
  }

  /** An untagged running instance is recorded with empty role and environment. */
  lemma IntendedUntagged(insts: seq<Instance>, k: nat)
    requires k < |RunningOnly(insts)| && RunningOnly(insts)[k].tags == []
    ensures IntendedRecords(insts)[k].role == "" && IntendedRecords(insts)[k].environment == ""
  {
  }

  /** Some tag of `tags` has `key`. */
  ghost predicate HasTag(tags: seq<Tag>, key: string)
  {
    exists j :: 0 <= j < |tags| && tags[j].key == key
  }

  /** Once the key is present, the default plays no part in what is read. */
  lemma DefaultIrrelevant(tags: seq<Tag>, key: string, d1: string, d2: string)
    requires HasTag(tags, key)
    ensures LastValueOr(tags, key, d1) == LastValueOr(tags, key, d2)
  {
    LastValueOrMeaning(tags, key, d1);
    LastValueOrMeaning(tags, key, d2);
    var j :| 0 <= j < |tags| && tags[j].key == key;
    assert LastIndexOf(tags, key) >= 0;
  }

  /** When every running instance carries both a Role and an Environment tag, the reused
      record makes no difference: the records are the intended fresh ones. So the two
      extractions differ only through tags inherited from earlier instances. */
  lemma FullyTaggedAsIntended(insts: seq<Instance>)
    requires forall inst :: inst in insts && inst.state == Running ==>
      HasTag(inst.tags, RoleKey) && HasTag(inst.tags, EnvironmentKey)
    ensures Records(insts) == IntendedRecords(insts)
  {
    RecordsAreSnapshots(insts);
    var run := RunningOnly(insts);
    forall k | 0 <= k < |run| ensures Snapshot(run, k) == FreshRecord(run[k]) {
      var inst := run[k];
      assert inst in run;
      var before := TagsOf(run[..k]);
      SnocParts(run[..k], inst);
      assert run[..k + 1] == run[..k] + [inst];
      assert TagsOf(run[..k + 1]) == before + inst.tags;
      LastValueOrAppend(before, inst.tags, RoleKey, "");
      LastValueOrAppend(before, inst.tags, EnvironmentKey, "");
      DefaultIrrelevant(inst.tags, RoleKey, LastValueOr(before, RoleKey, ""), "");
      DefaultIrrelevant(inst.tags, EnvironmentKey, LastValueOr(before, EnvironmentKey, ""), "");
    }
  }

  /** A running instance with no tags that follows a tagged one inherits its tag values. */
  lemma UntaggedInheritsTags()
    ensures var insts := [Instance("t2.micro", Running, [Tag(RoleKey, "web"), Tag(EnvironmentKey, "prod")]),
                          Instance("t3.large", Running, [])];
      |Records(insts)| == 2 && |IntendedRecords(insts)| == 2 &&
      Records(insts)[1] == RawData("t3.large", "web", "prod") &&
      IntendedRecords(insts)[1] == RawData("t3.large", "", "")
  {
    var insts := [Instance("t2.micro", Running, [Tag(RoleKey, "web"), Tag(EnvironmentKey, "prod")]),
                  Instance("t3.large", Running, [])];
    var a, b := insts[0], insts[1];
    assert DropLast(insts) == [a] && DropLast([a]) == [];
    assert DropLast(a.tags) == [Tag(RoleKey, "web")] && DropLast([Tag(RoleKey, "web")]) == [];
    var typed := Blank.(instanceType := "t2.micro");
    assert ApplyTags(typed, [Tag(RoleKey, "web")]) == typed.(role := "web");
    assert ApplyTags(typed, a.tags) == RawData("t2.micro", "web", "prod");
    assert Final([a]) == RawData("t2.micro", "web", "prod");
    assert Records(insts) == Records([a]) + [Step(Final([a]), b)];
    assert RunningOnly([a]) == [a];
    assert RunningOnly(insts) == insts;
  }
}
