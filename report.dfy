/** The in-memory aggregation of main.go: the role and environment lists (GetRoles,
    GetEnvironments) and the per-role report rows (GenerateCSVData). */
module Report {
  import opened Seqs
  import opened Unique
  import opened Types

  // ---------- Role and environment lists ----------

  function RolesOf(d: seq<RawData>): seq<string>
  {
    seq(|d|, k requires 0 <= k < |d| => d[k].role)
  }

  function EnvironmentsOf(d: seq<RawData>): seq<string>
  {
    seq(|d|, k requires 0 <= k < |d| => d[k].environment)
  }

  /** The distinct roles of the records, in first-seen order. */
  method GetRoles(d: seq<RawData>) returns (uniqueRoles: seq<string>)
    ensures uniqueRoles == Dedup(RolesOf(d))
    ensures NoDuplicates(uniqueRoles)
    ensures forall x :: x in uniqueRoles <==> exists k :: 0 <= k < |d| && d[k].role == x
    ensures d == [] ==> uniqueRoles == []
  {
    var roles: seq<string> := [];
    for i := 0 to |d|
      invariant |roles| == i
      invariant forall k :: 0 <= k < i ==> roles[k] == d[k].role
    {
      roles := roles + [d[i].role];
    }
    assert roles == RolesOf(d);
    uniqueRoles := GenerateUniqueStringSlice(roles);
    forall x | x in uniqueRoles ensures exists k :: 0 <= k < |d| && d[k].role == x {
      assert x in roles;
    }
  }

  /** The distinct environments of the records, in first-seen order. */
  method GetEnvironments(d: seq<RawData>) returns (uniqueEnvironments: seq<string>)
    ensures uniqueEnvironments == Dedup(EnvironmentsOf(d))
    ensures NoDuplicates(uniqueEnvironments)
    ensures forall x :: x in uniqueEnvironments <==> exists k :: 0 <= k < |d| && d[k].environment == x
    ensures d == [] ==> uniqueEnvironments == []
  {
    var environments: seq<string> := [];
    for i := 0 to |d|
      invariant |environments| == i
      invariant forall k :: 0 <= k < i ==> environments[k] == d[k].environment
    {
      environments := environments + [d[i].environment];
    }
    assert environments == EnvironmentsOf(d);
    uniqueEnvironments := GenerateUniqueStringSlice(environments);
    forall x | x in uniqueEnvironments ensures exists k :: 0 <= k < |d| && d[k].environment == x {
      assert x in environments;
    }
  }

  // ---------- GenerateCSVData as written ----------

  /** The records of one role as (environment, type) rows with count 0, in input order. */
  function RoleBucket(d: seq<RawData>, role: string): seq<Data>
  {
    if d == [] then []
    else
      var rec := Last(d);
      RoleBucket(DropLast(d), role) + (if rec.role == role then [Data(rec.environment, rec.instanceType, 0)] else [])
  }

  /** The instance types of the bucket rows that are in environment `env`, in order. */
  function EnvTypes(bucket: seq<Data>, env: string): seq<string>
  {
    if bucket == [] then []
    else EnvTypes(DropLast(bucket), env) + (if Last(bucket).environment == env then [Last(bucket).instanceType] else [])
  }

  /** Of the distinct types of a nonempty list, the one first seen last. */
  function LastDistinct(types: seq<string>): string
    requires types != []
  {
    Last(Dedup(types))
  }

  /** The row left behind for one environment: empty when the bucket has no type in it;
      otherwise the type first seen last, with its number of occurrences. */
  function FinalData(types: seq<string>, env: string): (f: Data)
    ensures f.instanceCount > 0 <==> types != []
  {
    if types == [] then Data("", "", 0)
    else
      CountPositive(types, LastDistinct(types));
      Data(env, LastDistinct(types), Count(types, LastDistinct(types)))
  }

  /** The rows of one role: the final row of each environment, when its count is positive. */
  function EntryRows(bucket: seq<Data>, envs: seq<string>): seq<Data>
  {
    if envs == [] then []
    else
      var f := FinalData(EnvTypes(bucket, Last(envs)), Last(envs));
      EntryRows(bucket, DropLast(envs)) + (if f.instanceCount > 0 then [f] else [])
  }

  function Rows(d: seq<RawData>, role: string, envs: seq<string>): seq<Data>
  {
    EntryRows(RoleBucket(d, role), envs)
  }

  /** The report as GenerateCSVData builds it: one entry per listed role, in order. */
  function Aggregate(d: seq<RawData>, roles: seq<string>, envs: seq<string>): (r: seq<CSVdata>)
    ensures |r| == |roles|
    ensures forall i :: 0 <= i < |roles| ==> r[i].role == roles[i] && r[i].data == Rows(d, roles[i], envs)
  {
    if roles == [] then []
    else Aggregate(d, DropLast(roles), envs) + [CSVdata(Last(roles), Rows(d, Last(roles), envs))]
  }

  lemma RoleBucketSnoc(d: seq<RawData>, role: string, k: nat)
    requires k < |d|
    ensures RoleBucket(d[..k + 1], role)
         == RoleBucket(d[..k], role) + (if d[k].role == role then [Data(d[k].environment, d[k].instanceType, 0)] else [])
  {
    SnocParts(d[..k], d[k]);
    assert d[..k + 1] == d[..k] + [d[k]];
  }

  lemma EnvTypesSnoc(bucket: seq<Data>, env: string, k: nat)
    requires k < |bucket|
    ensures EnvTypes(bucket[..k + 1], env)
         == EnvTypes(bucket[..k], env) + (if bucket[k].environment == env then [bucket[k].instanceType] else [])
  {
    SnocParts(bucket[..k], bucket[k]);
    assert bucket[..k + 1] == bucket[..k] + [bucket[k]];
  }

  lemma CountSnoc(s: seq<string>, x: string, k: nat)
    requires k < |s|
    ensures Count(s[..k + 1], x) == Count(s[..k], x) + (if s[k] == x then 1 else 0)
  {
    SnocParts(s[..k], s[k]);
    assert s[..k + 1] == s[..k] + [s[k]];
  }

  /** The records of one role, kept as rows with count 0 (main.go, the loop over `d`). */
  method CollectRoleBucket(d: seq<RawData>, role: string) returns (bucket: seq<Data>)
    ensures bucket == RoleBucket(d, role)
  {
    bucket := [];
    for k := 0 to |d|
      invariant bucket == RoleBucket(d[..k], role)
    {
      RoleBucketSnoc(d, role, k);
      var rawData := d[k];
      if rawData.role == role {
        var tempData := Data(rawData.environment, rawData.instanceType, 0);
        bucket := bucket + [tempData];
      }
    }
    assert d[..|d|] == d;
  }

  /** How often `instanceType` occurs in `types`, by collecting the matches (the slice `t`). */
  method CountMatches(types: seq<string>, instanceType: string) returns (n: nat)
    ensures n == Count(types, instanceType)
  {
    var t: seq<string> := [];
    for m := 0 to |types|
      invariant |t| == Count(types[..m], instanceType)
    {
      CountSnoc(types, instanceType, m);
      if types[m] == instanceType {
        t := t + [types[m]];
      }
    }
    assert types[..|types|] == types;
    n := |t|;
  }

  /** The scan of one environment over a role's bucket: every matching row extends the type
      list, which is then deduplicated and each distinct type counted into `finalData`. */
  method ScanEnvironment(bucket: seq<Data>, env: string) returns (finalData: Data)
    ensures finalData == FinalData(EnvTypes(bucket, env), env)
  {
    var instanceTypes: seq<string> := [];
    finalData := Data("", "", 0);
    for k := 0 to |bucket|
      invariant instanceTypes == EnvTypes(bucket[..k], env)
      invariant finalData == FinalData(instanceTypes, env)
    {
      EnvTypesSnoc(bucket, env, k);
      var dt := bucket[k];
      if env == dt.environment {
        instanceTypes := instanceTypes + [dt.instanceType];
        finalData := finalData.(environment := dt.environment);
        var uniqueTypes := GenerateUniqueStringSlice(instanceTypes);
        for j := 0 to |uniqueTypes|
          invariant finalData.environment == env
          invariant j > 0 ==> finalData.instanceType == uniqueTypes[j - 1]
                              && finalData.instanceCount == Count(instanceTypes, uniqueTypes[j - 1])
        {
          finalData := finalData.(instanceType := uniqueTypes[j]);
          var count := CountMatches(instanceTypes, uniqueTypes[j]);
          finalData := finalData.(instanceCount := count);
        }
      }
    }
    assert bucket[..|bucket|] == bucket;
  }

  lemma EntryRowsSnoc(bucket: seq<Data>, envs: seq<string>, e: nat)
    requires e < |envs|
    ensures var f := FinalData(EnvTypes(bucket, envs[e]), envs[e]);
      EntryRows(bucket, envs[..e + 1]) == EntryRows(bucket, envs[..e]) + (if f.instanceCount > 0 then [f] else [])
  {
    SnocParts(envs[..e], envs[e]);
    assert envs[..e + 1] == envs[..e] + [envs[e]];
  }

  lemma AggregateSnoc(d: seq<RawData>, roles: seq<string>, envs: seq<string>, i: nat)
    requires i < |roles|
    ensures Aggregate(d, roles[..i + 1], envs) == Aggregate(d, roles[..i], envs) + [CSVdata(roles[i], Rows(d, roles[i], envs))]
  {
    SnocParts(roles[..i], roles[i]);
    assert roles[..i + 1] == roles[..i] + [roles[i]];
  }

  /** The model of GenerateCSVData: for every role its bucket, then for every environment the
      row the scan leaves behind, kept when its count is positive. */
  method GenerateCSVData(d: seq<RawData>, roles: seq<string>, environments: seq<string>)
    returns (csvDataList: seq<CSVdata>)
    ensures csvDataList == Aggregate(d, roles, environments)
  {
    csvDataList := [];
    for ri := 0 to |roles|
      invariant csvDataList == Aggregate(d, roles[..ri], environments)
    {
      var role := roles[ri];
      var csvData := CSVdata(role, []);
      var bucket := CollectRoleBucket(d, role);
      for e := 0 to |environments|
        invariant csvData == CSVdata(role, EntryRows(bucket, environments[..e]))
      {
        var env := environments[e];
        var finalData := ScanEnvironment(bucket, env);
        EntryRowsSnoc(bucket, environments, e);
        if finalData.instanceCount > 0 {
          csvData := csvData.(data := csvData.data + [finalData]);
        }
      }
      assert environments[..|environments|] == environments;
      AggregateSnoc(d, roles, environments, ri);
      csvDataList := csvDataList + [csvData];
    }
    assert roles[..|roles|] == roles;
  }

  // ---------- A reference description in terms of the records ----------

  /** The instance types of the records with this role and environment, in input order. */
  function TypesIn(d: seq<RawData>, role: string, env: string): seq<string>
  {
    if d == [] then []
    else
      var rec := Last(d);
      TypesIn(DropLast(d), role, env) + (if rec.role == role && rec.environment == env then [rec.instanceType] else [])
  }

  /** Some record has this role and this environment. */
  predicate HasRecord(d: seq<RawData>, role: string, env: string)
  {
    exists rec :: rec in d && rec.role == role && rec.environment == env
  }

  /** The listed environments in which the role has a record, in the listed order. */
  function PresentEnvironments(d: seq<RawData>, role: string, envs: seq<string>): (r: seq<string>)
    ensures forall x :: x in r <==> x in envs && HasRecord(d, role, x)
    ensures |r| <= |envs|
  {
    if envs == [] then []
    else PresentEnvironments(d, role, DropLast(envs)) + (if HasRecord(d, role, Last(envs)) then [Last(envs)] else [])
  }

  /** Filtering a list without duplicates leaves a list without duplicates. */
  lemma {:induction false} PresentEnvironmentsDistinct(d: seq<RawData>, role: string, envs: seq<string>)
    requires NoDuplicates(envs)
    ensures NoDuplicates(PresentEnvironments(d, role, envs))
  {
    if envs != [] {
      var init := DropLast(envs);
      assert NoDuplicates(init);
      PresentEnvironmentsDistinct(d, role, init);
      assert Last(envs) !in init;
    }
  }

  /** The environments of a list of rows, in order. */
  function EnvsOf(rows: seq<Data>): (r: seq<string>)
    ensures |r| == |rows| && forall k :: 0 <= k < |rows| ==> r[k] == rows[k].environment
  {
    if rows == [] then [] else EnvsOf(DropLast(rows)) + [Last(rows).environment]
  }

  /** A role's bucket, restricted to one environment, holds exactly that role's and environment's types. */
  lemma {:induction false} BucketTypes(d: seq<RawData>, role: string, env: string)
    ensures EnvTypes(RoleBucket(d, role), env) == TypesIn(d, role, env)
  {
    if d != [] {
      BucketTypes(DropLast(d), role, env);
      var rec := Last(d);
      if rec.role == role {
        var row := Data(rec.environment, rec.instanceType, 0);
        assert RoleBucket(d, role) == RoleBucket(DropLast(d), role) + [row];
        SnocParts(RoleBucket(DropLast(d), role), row);
        assert EnvTypes(RoleBucket(d, role), env)
            == EnvTypes(RoleBucket(DropLast(d), role), env) + (if rec.environment == env then [rec.instanceType] else []);
      } else {
        assert RoleBucket(d, role) == RoleBucket(DropLast(d), role);
      }
    }
  }

  lemma {:induction false} TypesInMembers(d: seq<RawData>, role: string, env: string, t: string)
    ensures t in TypesIn(d, role, env) <==> RawData(t, role, env) in d
  {
    if d != [] {
      TypesInMembers(DropLast(d), role, env, t);
      assert d == DropLast(d) + [Last(d)];
    }
  }

  lemma TypesInNonEmpty(d: seq<RawData>, role: string, env: string)
    ensures TypesIn(d, role, env) != [] <==> HasRecord(d, role, env)
  {
    if HasRecord(d, role, env) {
      var rec :| rec in d && rec.role == role && rec.environment == env;
      TypesInMembers(d, role, env, rec.instanceType);
    }
    if TypesIn(d, role, env) != [] {
      TypesInMembers(d, role, env, TypesIn(d, role, env)[0]);
    }
  }

  /** Counting a type among a role's and environment's types counts the matching records. */
  lemma {:induction false} TypesInCount(d: seq<RawData>, role: string, env: string, t: string)
    ensures Count(TypesIn(d, role, env), t) == multiset(d)[RawData(t, role, env)]
  {
    if d != [] {
      TypesInCount(DropLast(d), role, env, t);
      var rec := Last(d);
      assert d == DropLast(d) + [rec];
      assert multiset(d) == multiset(DropLast(d)) + multiset{rec};
      var ts := TypesIn(DropLast(d), role, env);
      if rec.role == role && rec.environment == env {
        assert TypesIn(d, role, env) == ts + [rec.instanceType];
        SnocParts(ts, rec.instanceType);
        assert Count(ts + [rec.instanceType], t) == Count(ts, t) + (if rec.instanceType == t then 1 else 0);
      } else {
        assert TypesIn(d, role, env) == ts;
        assert rec != RawData(t, role, env);
      }
    }
  }

  // ---------- What GenerateCSVData produces ----------

  /** Some row of `rows` is for environment `env` and instance type `t`. */
  ghost predicate HasRow(rows: seq<Data>, env: string, t: string)
  {
    exists k :: 0 <= k < |rows| && rows[k].environment == env && rows[k].instanceType == t
  }

  /** The environments of a role's rows are exactly the listed environments in which the role
      has a record, in the listed order: a row for `env` exists iff some record has the role
      and `env`, and never out of the environments' order. */
  lemma {:induction false} RowEnvironments(d: seq<RawData>, role: string, envs: seq<string>)
    ensures EnvsOf(Rows(d, role, envs)) == PresentEnvironments(d, role, envs)
  {
    if envs != [] {
      var init, env := DropLast(envs), Last(envs);
      RowEnvironments(d, role, init);
      BucketTypes(d, role, env);
      TypesInNonEmpty(d, role, env);
      var f := FinalData(EnvTypes(RoleBucket(d, role), env), env);
      SnocParts(Rows(d, role, init), f);
      SnocParts(PresentEnvironments(d, role, init), env);
    }
  }

  /** Each row of a role: its environment is listed and holds records of the role; its type is
      the last distinct type of that bucket; its count is the number of records with exactly
      this role, environment and type, and at least one. */
  lemma {:induction false} RowFacts(d: seq<RawData>, role: string, envs: seq<string>)
    ensures forall k :: 0 <= k < |Rows(d, role, envs)| ==>
      var row := Rows(d, role, envs)[k];
      row.environment in envs && HasRecord(d, role, row.environment) &&
      TypesIn(d, role, row.environment) != [] &&
      row.instanceType == LastDistinct(TypesIn(d, role, row.environment)) &&
      row.instanceCount == multiset(d)[RawData(row.instanceType, role, row.environment)] &&
      row.instanceCount >= 1
  {
    if envs != [] {
      var init, env := DropLast(envs), Last(envs);
      RowFacts(d, role, init);
      BucketTypes(d, role, env);
      TypesInNonEmpty(d, role, env);
      var types := TypesIn(d, role, env);
      var f := FinalData(types, env);
      var before := Rows(d, role, init);
      var rows := Rows(d, role, envs);
      assert rows == before + (if f.instanceCount > 0 then [f] else []);
      if types != [] {
        TypesInCount(d, role, env, LastDistinct(types));
      }
      forall k | 0 <= k < |rows|
        ensures var row := rows[k];
          row.environment in envs && HasRecord(d, role, row.environment) &&
          TypesIn(d, role, row.environment) != [] &&
          row.instanceType == LastDistinct(TypesIn(d, role, row.environment)) &&
          row.instanceCount == multiset(d)[RawData(row.instanceType, role, row.environment)] &&
          row.instanceCount >= 1
      {
        if k < |before| {
          assert rows[k] == before[k];
          assert before[k].environment in init;
        } else {
          assert rows[k] == f && f.environment == env;
        }
      }
    }
  }

  /** A role has a row for `env` iff `env` is listed and some record has the role and `env`. */
  lemma RowExistsIff(d: seq<RawData>, role: string, envs: seq<string>, env: string)
    ensures (exists k :: 0 <= k < |Rows(d, role, envs)| && Rows(d, role, envs)[k].environment == env)
        <==> env in envs && (exists k :: 0 <= k < |d| && d[k].role == role && d[k].environment == env)
  {
    RowEnvironments(d, role, envs);
    var rows := Rows(d, role, envs);
    if env in envs && HasRecord(d, role, env) {
      assert env in EnvsOf(rows);
    }
    if exists k :: 0 <= k < |d| && d[k].role == role && d[k].environment == env {
      var k :| 0 <= k < |d| && d[k].role == role && d[k].environment == env;
      assert d[k] in d;
    }
    if exists k :: 0 <= k < |rows| && rows[k].environment == env {
      var k :| 0 <= k < |rows| && rows[k].environment == env;
      assert EnvsOf(rows)[k] == env;
      var rec :| rec in d && rec.role == role && rec.environment == env;
    }
  }

  /** A role that no record has is present in no environment. */
  lemma {:induction false} NoPresentEnvironments(d: seq<RawData>, role: string, envs: seq<string>)
    requires forall rec :: rec in d ==> rec.role != role
    ensures PresentEnvironments(d, role, envs) == []
  {
    if envs != [] {
      NoPresentEnvironments(d, role, DropLast(envs));
    }
  }

  /** A role that no record has gets an entry with no rows. */
  lemma NoRecordsNoRows(d: seq<RawData>, role: string, envs: seq<string>)
    requires forall rec :: rec in d ==> rec.role != role
    ensures Rows(d, role, envs) == []
  {
    RowEnvironments(d, role, envs);
    NoPresentEnvironments(d, role, envs);
  }

  /** When the environment list has no duplicates, a role has at most one row per environment. */
  lemma AtMostOneRowPerEnvironment(d: seq<RawData>, role: string, envs: seq<string>)
    requires NoDuplicates(envs)
    ensures forall i, j :: 0 <= i < j < |Rows(d, role, envs)| ==>
      Rows(d, role, envs)[i].environment != Rows(d, role, envs)[j].environment
  {
    RowEnvironments(d, role, envs);
    PresentEnvironmentsDistinct(d, role, envs);
    var r := EnvsOf(Rows(d, role, envs));
    assert forall i, j :: 0 <= i < j < |r| ==> r[i] != r[j];
  }

  /** Every type of a bucket other than its last distinct one gets no row. */
  lemma DroppedTypes(d: seq<RawData>, role: string, envs: seq<string>, env: string, t: string)
    requires t in TypesIn(d, role, env)
    requires t != LastDistinct(TypesIn(d, role, env))
    ensures !HasRow(Rows(d, role, envs), env, t)
  {
    RowFacts(d, role, envs);
  }

  /** A bucket with two types keeps only the later one: the t2.micro record is counted nowhere. */
  lemma TwoTypesOneRow()
    ensures var d := [RawData("t2.micro", "web", "prod"), RawData("t3.large", "web", "prod")];
      Aggregate(d, ["web"], ["prod"]) == [CSVdata("web", [Data("prod", "t3.large", 1)])]
  {
    var d := [RawData("t2.micro", "web", "prod"), RawData("t3.large", "web", "prod")];
    var bucket := [Data("prod", "t2.micro", 0), Data("prod", "t3.large", 0)];
    TwoTypesBucket(d, bucket);
    TwoTypesFinal(bucket);
    assert DropLast(["prod"]) == [];
    assert Rows(d, "web", ["prod"]) == [Data("prod", "t3.large", 1)];
    assert DropLast(["web"]) == [];
  }

  lemma TwoTypesBucket(d: seq<RawData>, bucket: seq<Data>)
    requires d == [RawData("t2.micro", "web", "prod"), RawData("t3.large", "web", "prod")]
    requires bucket == [Data("prod", "t2.micro", 0), Data("prod", "t3.large", 0)]
    ensures RoleBucket(d, "web") == bucket
  {
    assert DropLast(d) == [d[0]] && DropLast([d[0]]) == [];
    assert RoleBucket([d[0]], "web") == RoleBucket([], "web") + [bucket[0]];
    assert RoleBucket(d, "web") == RoleBucket([d[0]], "web") + [bucket[1]];
  }

  lemma TwoTypesFinal(bucket: seq<Data>)
    requires bucket == [Data("prod", "t2.micro", 0), Data("prod", "t3.large", 0)]
    ensures FinalData(EnvTypes(bucket, "prod"), "prod") == Data("prod", "t3.large", 1)
  {
    var types := ["t2.micro", "t3.large"];
    assert DropLast(bucket) == [bucket[0]] && DropLast([bucket[0]]) == [];
    assert EnvTypes([bucket[0]], "prod") == EnvTypes([], "prod") + ["t2.micro"];
    assert EnvTypes(bucket, "prod") == EnvTypes([bucket[0]], "prod") + ["t3.large"];
    DedupOfDistinct(types);
    assert DropLast(types) == ["t2.micro"] && DropLast(["t2.micro"]) == [];
    assert Count(types, "t3.large") == 1;
  }

  /** With the role and environment lists derived from the records themselves, as the report
      pipeline does, every record's role is listed and its entry has a row for the record's
      environment, empty role and environment included. (GetRoles' lists have no duplicates
      and AtMostOneRowPerEnvironment makes that row the only one.) */
  lemma {:induction false} EveryRecordHasItsRow(d: seq<RawData>, rec: RawData)
    requires rec in d
    ensures rec.role in Dedup(RolesOf(d))
    ensures exists k :: 0 <= k < |Rows(d, rec.role, Dedup(EnvironmentsOf(d)))|
                        && Rows(d, rec.role, Dedup(EnvironmentsOf(d)))[k].environment == rec.environment
  {
    var envs := Dedup(EnvironmentsOf(d));
    var n :| 0 <= n < |d| && d[n] == rec;
    assert RolesOf(d)[n] == rec.role && EnvironmentsOf(d)[n] == rec.environment;
    assert rec.environment in envs;
    RowExistsIff(d, rec.role, envs, rec.environment);
  }

  // ---------- Intended behaviour: one row per (environment, type) ----------

  /** One row per distinct type of the role's records in `env`, in first-seen order, with its count. */
  function TypeRows(d: seq<RawData>, role: string, env: string): seq<Data>
  {
    var u := Dedup(TypesIn(d, role, env));
    seq(|u|, k requires 0 <= k < |u| => Data(env, u[k], multiset(d)[RawData(u[k], role, env)]))
  }

  /** The rows of one role as the aggregation is meant to be: for every listed environment,
      a row per distinct instance type. */
  function IntendedRows(d: seq<RawData>, role: string, envs: seq<string>): seq<Data>
  {
    if envs == [] then [] else IntendedRows(d, role, DropLast(envs)) + TypeRows(d, role, Last(envs))
  }

  /** The intended report: one entry per listed role, in order. */
  function IntendedAggregate(d: seq<RawData>, roles: seq<string>, envs: seq<string>): (r: seq<CSVdata>)
    ensures |r| == |roles|
    ensures forall i :: 0 <= i < |roles| ==> r[i].role == roles[i] && r[i].data == IntendedRows(d, roles[i], envs)
  {
    seq(|roles|, i requires 0 <= i < |roles| => CSVdata(roles[i], IntendedRows(d, roles[i], envs)))
  }

  lemma IntendedRowsSnoc(d: seq<RawData>, role: string, envs: seq<string>)
    requires envs != []
    ensures IntendedRows(d, role, envs) == IntendedRows(d, role, DropLast(envs)) + TypeRows(d, role, Last(envs))
  {
  }

  /** Every intended row is listed, has count at least 1 and counts its matching records. */
  lemma {:induction false} IntendedRowsCounted(d: seq<RawData>, role: string, envs: seq<string>)
    ensures forall k :: 0 <= k < |IntendedRows(d, role, envs)| ==>
      var row := IntendedRows(d, role, envs)[k];
      row.environment in envs && row.instanceCount >= 1 &&
      row.instanceCount == multiset(d)[RawData(row.instanceType, role, row.environment)]
  {
    if envs != [] {
      var init, env := DropLast(envs), Last(envs);
      IntendedRowsCounted(d, role, init);
      var before, added := IntendedRows(d, role, init), TypeRows(d, role, env);
      IntendedRowsSnoc(d, role, envs);
      var u := Dedup(TypesIn(d, role, env));
      forall k | 0 <= k < |added|
        ensures added[k].environment == env && added[k].instanceCount >= 1
        ensures added[k].instanceCount == multiset(d)[RawData(added[k].instanceType, role, env)]
      {
        TypesInCount(d, role, env, u[k]);
        CountPositive(TypesIn(d, role, env), u[k]);
      }
      forall k | 0 <= k < |before| ensures before[k].environment in envs {
        assert before[k].environment in init;
      }
    }
  }

  /** Every type the role has in `env` gets a row among that environment's intended rows. */
  lemma TypeRowsCover(d: seq<RawData>, role: string, env: string, t: string)
    requires RawData(t, role, env) in d
    ensures HasRow(TypeRows(d, role, env), env, t)
  {
    TypesInMembers(d, role, env, t);
    var u := Dedup(TypesIn(d, role, env));
    var k :| 0 <= k < |u| && u[k] == t;
    assert TypeRows(d, role, env)[k].instanceType == t;
  }

  lemma HasRowAppend(a: seq<Data>, b: seq<Data>, env: string, t: string)
    requires HasRow(a, env, t) || HasRow(b, env, t)
    ensures HasRow(a + b, env, t)
  {
    if HasRow(a, env, t) {
      var k :| 0 <= k < |a| && a[k].environment == env && a[k].instanceType == t;
      assert (a + b)[k] == a[k];
    } else {
      var k :| 0 <= k < |b| && b[k].environment == env && b[k].instanceType == t;
      assert (a + b)[|a| + k] == b[k];
    }
  }

  /** Every record of the role in a listed environment has its (environment, type) row. */
  lemma {:induction false} IntendedRowsComplete(d: seq<RawData>, role: string, envs: seq<string>)
    ensures forall rec :: rec in d && rec.role == role && rec.environment in envs ==>
      HasRow(IntendedRows(d, role, envs), rec.environment, rec.instanceType)
  {
    if envs != [] {
      var init, env := DropLast(envs), Last(envs);
      IntendedRowsComplete(d, role, init);
      var before, added := IntendedRows(d, role, init), TypeRows(d, role, env);
      IntendedRowsSnoc(d, role, envs);
      forall rec | rec in d && rec.role == role && rec.environment in envs
        ensures HasRow(before + added, rec.environment, rec.instanceType)
      {
        if rec.environment == env {
          assert rec == RawData(rec.instanceType, role, env);
          TypeRowsCover(d, role, env, rec.instanceType);
        } else {
          assert rec.environment in init;
        }
        HasRowAppend(before, added, rec.environment, rec.instanceType);
      }
    }
  }

  /** With distinct listed environments, no (environment, type) pair has two intended rows. */
  lemma {:induction false} IntendedRowsDistinct(d: seq<RawData>, role: string, envs: seq<string>)
    requires NoDuplicates(envs)
    ensures forall i, j :: 0 <= i < j < |IntendedRows(d, role, envs)| ==>
      var a, b := IntendedRows(d, role, envs)[i], IntendedRows(d, role, envs)[j];
      a.environment != b.environment || a.instanceType != b.instanceType
  {
    if envs != [] {
      var init, env := DropLast(envs), Last(envs);
      assert NoDuplicates(init);
      IntendedRowsDistinct(d, role, init);
      IntendedRowsCounted(d, role, init);
      assert env !in init;
      var before, added := IntendedRows(d, role, init), TypeRows(d, role, env);
      IntendedRowsSnoc(d, role, envs);
      var rows := IntendedRows(d, role, envs);
      var u := Dedup(TypesIn(d, role, env));
      forall i, j | 0 <= i < j < |rows|
        ensures rows[i].environment != rows[j].environment || rows[i].instanceType != rows[j].instanceType
      {
        if j < |before| {
          assert rows[i] == before[i] && rows[j] == before[j];
        } else if i < |before| {
          assert rows[i] == before[i] && rows[j] == added[j - |before|];
        } else {
          assert rows[i] == added[i - |before|] && rows[j] == added[j - |before|];
          assert u[i - |before|] != u[j - |before|];
        }
      }
    }
  }

  /** Within one role's intended rows, a record of that role whose environment is listed has
      exactly one row, and that row counts the records equal to it. */
  lemma IntendedRowsOnce(d: seq<RawData>, rec: RawData, envs: seq<string>)
    requires rec in d && rec.environment in envs && NoDuplicates(envs)
    ensures var rows := IntendedRows(d, rec.role, envs);
      HasRow(rows, rec.environment, rec.instanceType) &&
      forall k :: 0 <= k < |rows| && rows[k].environment == rec.environment && rows[k].instanceType == rec.instanceType ==>
        rows[k].instanceCount == multiset(d)[rec] &&
        forall k' :: 0 <= k' < |rows| && rows[k'].environment == rec.environment && rows[k'].instanceType == rec.instanceType ==> k == k'
  {
    var rows := IntendedRows(d, rec.role, envs);
    IntendedRowsComplete(d, rec.role, envs);
    IntendedRowsCounted(d, rec.role, envs);
    IntendedRowsDistinct(d, rec.role, envs);
    forall k | 0 <= k < |rows| && rows[k].environment == rec.environment && rows[k].instanceType == rec.instanceType
      ensures rows[k].instanceCount == multiset(d)[rec]
    {
      assert RawData(rows[k].instanceType, rec.role, rows[k].environment) == rec;
    }
  }

  /** Row `k` of entry `i` of a report is for the role, environment and type of `rec`. */
  ghost predicate RowAt(report: seq<CSVdata>, i: int, k: int, rec: RawData)
  {
    0 <= i < |report| && 0 <= k < |report[i].data| && report[i].role == rec.role &&
    report[i].data[k].environment == rec.environment && report[i].data[k].instanceType == rec.instanceType
  }

  /** The intended report for the role and environment lists derived from the records. */
  ghost function IntendedReport(d: seq<RawData>): seq<CSVdata>
  {
    IntendedAggregate(d, Dedup(RolesOf(d)), Dedup(EnvironmentsOf(d)))
  }

  /** A row of the intended report for `rec` lies in `rec`'s role entry, among its intended rows. */
  lemma RowAtIsIntendedRow(d: seq<RawData>, rec: RawData, i: int, k: int)
    requires RowAt(IntendedReport(d), i, k, rec)
    ensures var rows := IntendedRows(d, rec.role, Dedup(EnvironmentsOf(d)));
      IntendedReport(d)[i].data == rows && 0 <= k < |rows| &&
      rows[k].environment == rec.environment && rows[k].instanceType == rec.instanceType
  {
    var roles := Dedup(RolesOf(d));
    assert roles[i] == rec.role;
  }

  /** With the role and environment lists derived from the records, the intended report
      counts every record in exactly one row, and that row's count is the number of records
      equal to it. */
  lemma IntendedReportCountsEveryRecord(d: seq<RawData>, rec: RawData)
    requires rec in d
    ensures exists i, k :: RowAt(IntendedReport(d), i, k, rec)
    ensures forall i, k :: RowAt(IntendedReport(d), i, k, rec) ==>
      IntendedReport(d)[i].data[k].instanceCount == multiset(d)[rec]
    ensures forall i, k, i', k' :: RowAt(IntendedReport(d), i, k, rec) && RowAt(IntendedReport(d), i', k', rec) ==>
      i == i' && k == k'
  {
    var roles, envs := Dedup(RolesOf(d)), Dedup(EnvironmentsOf(d));
    var report := IntendedReport(d);
    var n :| 0 <= n < |d| && d[n] == rec;
    assert RolesOf(d)[n] == rec.role && EnvironmentsOf(d)[n] == rec.environment;
    assert rec.role in roles && rec.environment in envs;
    var i :| 0 <= i < |roles| && roles[i] == rec.role;
    var rows := IntendedRows(d, rec.role, envs);
    assert report[i].data == rows;
    IntendedRowsOnce(d, rec, envs);
    var k :| 0 <= k < |rows| && rows[k].environment == rec.environment && rows[k].instanceType == rec.instanceType;
    assert RowAt(report, i, k, rec);
    forall i1, k1 | RowAt(report, i1, k1, rec)
      ensures i1 == i && k1 == k && report[i1].data[k1].instanceCount == multiset(d)[rec]
    {
      RowAtIsIntendedRow(d, rec, i1, k1);
    }
  }

  /** In the two-type bucket the intended report keeps both types. */
  lemma TwoTypesTwoRows()
    ensures var d := [RawData("t2.micro", "web", "prod"), RawData("t3.large", "web", "prod")];
      IntendedAggregate(d, ["web"], ["prod"])
        == [CSVdata("web", [Data("prod", "t2.micro", 1), Data("prod", "t3.large", 1)])]
  {
    var d := [RawData("t2.micro", "web", "prod"), RawData("t3.large", "web", "prod")];
    var expected := [Data("prod", "t2.micro", 1), Data("prod", "t3.large", 1)];
    TwoTypesTypeRows(d, expected);
    assert DropLast(["prod"]) == [];
    assert IntendedRows(d, "web", ["prod"]) == IntendedRows(d, "web", []) + TypeRows(d, "web", "prod");
    var report := IntendedAggregate(d, ["web"], ["prod"]);
    assert |report| == 1 && report[0] == CSVdata("web", expected);
  }

  lemma TwoTypesTypeRows(d: seq<RawData>, expected: seq<Data>)
    requires d == [RawData("t2.micro", "web", "prod"), RawData("t3.large", "web", "prod")]
    requires expected == [Data("prod", "t2.micro", 1), Data("prod", "t3.large", 1)]
    ensures TypeRows(d, "web", "prod") == expected
  {
    var types := ["t2.micro", "t3.large"];
    assert DropLast(d) == [d[0]] && DropLast([d[0]]) == [];
    assert TypesIn([d[0]], "web", "prod") == TypesIn([], "web", "prod") + ["t2.micro"];
    assert TypesIn(d, "web", "prod") == TypesIn([d[0]], "web", "prod") + ["t3.large"];
    DedupOfDistinct(types);
    assert multiset(d) == multiset{d[0], d[1]};
    assert multiset(d)[d[0]] == 1 && multiset(d)[d[1]] == 1;
  }
}
