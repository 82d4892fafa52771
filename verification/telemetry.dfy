/** The pure configuration helpers of the engine's telemetry: server-list
    deduplication, extraction of the root trace id from a W3C Trace Context
    `traceparent` value, the decision whether telemetry is enabled, the
    contents of an enabled configuration, and the Windows FILETIME
    conversion used for CPU-time metrics. */
module Telemetry {
  import opened Wrappers
  import opened Strings

  const PATHWAY_TELEMETRY_SERVER: string := "https://usage.pathway.com"
  /** The default metrics export period, in seconds. */
  const PERIODIC_READER_INTERVAL_SECS: nat := 60
  const LOCAL_DEV_NAMESPACE: string := "local-dev"
  const MONITORING_ENTITLEMENT: string := "monitoring"
  const MONITORING_INTERNAL_ENTITLEMENT: string := "monitoring-internal"
  const INSTANCE_ID_VAR: string := "PATHWAY_SERVICE_INSTANCE_ID"
  const NAMESPACE_VAR: string := "PATHWAY_SERVICE_NAMESPACE"

  newtype u64 = x: int | 0 <= x < 0x1_0000_0000_0000_0000
  newtype i64 = x: int | -0x8000_0000_0000_0000 <= x < 0x8000_0000_0000_0000

  // ---------------------------------------------------------------------------
  // deduplicate: flatten, sort, drop adjacent duplicates
  // ---------------------------------------------------------------------------

  /** The `Some` values of `input`, in order. */
  function Flatten(input: seq<Option<string>>): (r: seq<string>)
    ensures forall s :: s in r <==> Some(s) in input
    ensures |r| <= |input|
  {
    if |input| == 0 then []
    else
      var rest := Flatten(input[1..]);
      assert forall o :: o in input <==> o == input[0] || o in input[1..];
      if input[0].Some? then [input[0].value] + rest else rest
  }

  lemma SortedPrepend(h: string, s: seq<string>)
    requires StrictlyIncreasing(s)
    requires forall i :: 0 <= i < |s| ==> Less(h, s[i])
    ensures StrictlyIncreasing([h] + s)
  {
    var r := [h] + s;
    forall i, j | 0 <= i < j < |r|
      ensures Less(r[i], r[j])
    {
      if i > 0 {
        assert r[i] == s[i - 1] && r[j] == s[j - 1];
      } else {
        assert r[j] == s[j - 1];
      }
    }
  }

  lemma BelowHeadBelowAll(x: string, s: seq<string>)
    requires StrictlyIncreasing(s) && |s| > 0 && Less(x, s[0])
    ensures forall i :: 0 <= i < |s| ==> Less(x, s[i])
  {
    forall i | 0 < i < |s|
      ensures Less(x, s[i])
    {
      LessTransitive(x, s[0], s[i]);
    }
  }

  /** Inserts `x` into a sorted duplicate-free list unless it is already there. */
  function InsertSorted(x: string, s: seq<string>): (r: seq<string>)
    requires StrictlyIncreasing(s)
    ensures StrictlyIncreasing(r)
    ensures forall y :: y in r <==> y == x || y in s
    ensures |r| <= |s| + 1
  {
    if |s| == 0 then [x]
    else if x == s[0] then s
    else if Less(x, s[0]) then
      BelowHeadBelowAll(x, s);
      SortedPrepend(x, s);
      [x] + s
    else
      LessTotal(x, s[0]);
      var rest := InsertSorted(x, s[1..]);
      assert forall y :: y in s <==> y == s[0] || y in s[1..];
      assert forall i :: 0 <= i < |rest| ==> Less(s[0], rest[i]) by {
        forall i | 0 <= i < |rest|
          ensures Less(s[0], rest[i])
        {
          assert rest[i] in rest;
          if rest[i] != x {
            var k :| 0 <= k < |s[1..]| && s[1..][k] == rest[i];
            assert s[k + 1] == rest[i];
          }
        }
      }
      SortedPrepend(s[0], rest);
      [s[0]] + rest
  }

  /** `iter.sorted().dedup()`. */
  function SortDedup(xs: seq<string>): (r: seq<string>)
    ensures StrictlyIncreasing(r)
    ensures forall y :: y in r <==> y in xs
    ensures |r| <= |xs|
  {
    if |xs| == 0 then []
    else
      assert forall y :: y in xs <==> y == xs[0] || y in xs[1..];
      InsertSorted(xs[0], SortDedup(xs[1..]))
  }

  /** `deduplicate`: the distinct `Some` values of the input in increasing order. */
  function Deduplicate(input: seq<Option<string>>): (r: seq<string>)
    ensures StrictlyIncreasing(r)
    ensures forall s :: s in r <==> Some(s) in input
    ensures |r| <= |input|
  {
    SortDedup(Flatten(input))
  }

  /** A sorted duplicate-free list is determined by its elements. */
  lemma {:induction false} SortedListsWithSameElementsAreEqual(a: seq<string>, b: seq<string>)
    requires StrictlyIncreasing(a) && StrictlyIncreasing(b)
    requires forall y :: y in a <==> y in b
    ensures a == b
  {
    assert |a| > 0 ==> a[0] in b;
    assert |b| > 0 ==> b[0] in a;
    if |a| == 0 {
    } else {
      assert b[0] in a;
      assert a[0] in b;
      var k :| 0 <= k < |a| && a[k] == b[0];
      var m :| 0 <= m < |b| && b[m] == a[0];
      if k > 0 {
        assert Less(a[0], b[0]);
        LessIrreflexive(a[0]);
        assert m > 0;
        assert Less(b[0], a[0]);
        LessAsymmetric(a[0], b[0]);
        assert false;
      }
      assert a[0] == b[0];
      forall y
        ensures y in a[1..] <==> y in b[1..]
      {
        if y in a[1..] {
          var i :| 0 <= i < |a[1..]| && a[1..][i] == y;
          assert Less(a[0], a[i + 1]);
          LessIrreflexive(y);
          assert y in b;
          var j :| 0 <= j < |b| && b[j] == y;
          assert j != 0;
          assert b[1..][j - 1] == y;
        }
        if y in b[1..] {
          var j :| 0 <= j < |b[1..]| && b[1..][j] == y;
          assert Less(b[0], b[j + 1]);
          LessIrreflexive(y);
          assert y in a;
          var i :| 0 <= i < |a| && a[i] == y;
          assert i != 0;
          assert a[1..][i - 1] == y;
        }
      }
      assert StrictlyIncreasing(a[1..]) by {
        forall i, j | 0 <= i < j < |a[1..]|
          ensures Less(a[1..][i], a[1..][j])
        {
          assert a[1..][i] == a[i + 1] && a[1..][j] == a[j + 1];
        }
      }
      assert StrictlyIncreasing(b[1..]) by {
        forall i, j | 0 <= i < j < |b[1..]|
          ensures Less(b[1..][i], b[1..][j])
        {
          assert b[1..][i] == b[i + 1] && b[1..][j] == b[j + 1];
        }
      }
      SortedListsWithSameElementsAreEqual(a[1..], b[1..]);
      assert a == [a[0]] + a[1..] && b == [b[0]] + b[1..];
    }
  }

  /** The result of `deduplicate` depends only on the set of `Some` values, so
      the order and multiplicity of the servers passed to it do not matter. */
  lemma DeduplicateDependsOnlyOnValues(x: seq<Option<string>>, y: seq<Option<string>>)
    requires forall s :: Some(s) in x <==> Some(s) in y
    ensures Deduplicate(x) == Deduplicate(y)
  {
    SortedListsWithSameElementsAreEqual(Deduplicate(x), Deduplicate(y));
  }

  /** Deduplicating one or two optional servers gives at most two entries, and
      two equal servers collapse to one. */
  lemma DeduplicatePair(t: Option<string>, m: Option<string>)
    ensures |Deduplicate([t, m])| <= 2
    ensures t.Some? && t == m ==> Deduplicate([t, m]) == [t.value]
    ensures t.None? && m.None? ==> Deduplicate([t, m]) == []
  {
    if t.Some? && t == m {
      SortedListsWithSameElementsAreEqual(Deduplicate([t, m]), [t.value]);
    }
    if t.None? && m.None? {
      SortedListsWithSameElementsAreEqual(Deduplicate([t, m]), []);
    }
  }

  // ---------------------------------------------------------------------------
  // root_trace_id
  // ---------------------------------------------------------------------------

  /** A panic of the Rust code, carrying its message. */
  datatype Panic = Panic(message: string)

  /** `root_trace_id`: the second `-`-separated field of a `traceparent`
      value; the code panics (`expect`) when the value has no `-`. */
  function RootTraceId(traceParent: Option<string>): (r: Result<Option<string>, Panic>)
    ensures traceParent.None? ==> r == Success(None)
    ensures traceParent.Some? ==> (r.Failure? <==> '-' !in traceParent.value)
    ensures traceParent.Some? && r.Success? ==>
              && r.value.Some?
              && '-' !in r.value.value
              && PieceAfterFirst(traceParent.value, '-', r.value.value)
  {
    match traceParent
    case None => Success(None)
    case Some(s) =>
      var fields := Split(s, '-');
      SplitHasTwoFieldsIffSeparator(s, '-');
      if |fields| < 2 then
        Failure(Panic("trace parent should contain the root trace ID"))
      else
        SecondPieceFollowsFirstSeparator(s, '-');
        Success(Some(fields[1]))
  }

  /** For a traceparent `version-traceid-parentid-flags` laid out as in
      section 3.2 of the W3C Trace Context recommendation, the root trace id
      is the `trace-id` field. */
  lemma RootTraceIdOfTraceparent(version: string, traceId: string, parentId: string, flags: string)
    requires '-' !in version && '-' !in traceId && '-' !in parentId && '-' !in flags
    ensures RootTraceId(Some(version + "-" + traceId + "-" + parentId + "-" + flags)) == Success(Some(traceId))
  {
    var fields := [version, traceId, parentId, flags];
    assert fields[1..][1..][1..] == [flags];
    assert Join(fields[2..], '-') == parentId + "-" + flags;
    assert Join(fields[1..], '-') == traceId + "-" + (parentId + "-" + flags);
    assert Join(fields, '-') == version + "-" + (traceId + "-" + (parentId + "-" + flags));
    assert Join(fields, '-') == version + "-" + traceId + "-" + parentId + "-" + flags;
    SplitJoin(fields, '-');
  }

  // ---------------------------------------------------------------------------
  // Config::create and Config::create_enabled
  // ---------------------------------------------------------------------------

  /** The parts of a `License` that the configuration depends on. */
  datatype License = License(
    isNoLicenseKey: bool,
    telemetryRequired: bool,
    /** whether `check_entitlements([name])` succeeds */
    entitled: string -> bool,
    /** `license.shortcut()` */
    shortcut: string)

  /** What the process supplies beyond the explicit arguments: the parsed
      environment variables, fresh UUIDs, and the crate name and version. */
  datatype Environment = Environment(
    /** `parse_env_var("PATHWAY_SERVICE_INSTANCE_ID")` */
    instanceIdVar: Result<Option<string>, string>,
    /** `parse_env_var("PATHWAY_SERVICE_NAMESPACE")` */
    namespaceVar: Result<Option<string>, string>,
    runUuid: string,
    instanceUuid: string,
    namespaceUuid: string,
    packageName: string,
    packageVersion: string)

  datatype TelemetryEnabled = TelemetryEnabled(
    telemetryServer: Option<string>,
    monitoringServer: Option<string>,
    loggingServers: seq<string>,
    tracingServers: seq<string>,
    metricsServers: seq<string>,
    serviceName: string,
    serviceVersion: string,
    serviceNamespace: string,
    serviceInstanceId: string,
    runId: string,
    traceParent: Option<string>,
    licenseKey: string,
    periodicReaderIntervalSecs: nat)

  datatype Config = Enabled(enabled: TelemetryEnabled) | Disabled

  datatype ConfigError = MissingEntitlement(entitlement: string) | InvalidEnvVar(name: string)

  predicate EnvVarsParse(env: Environment)
  {
    env.instanceIdVar.Success? && env.namespaceVar.Success?
  }

  /** `Config::create_enabled`: server lists, service identity and namespace. */
  function CreateEnabled(
    runId: string,
    telemetryServer: Option<string>,
    monitoringServer: Option<string>,
    traceParent: Option<string>,
    license: License,
    intervalSecs: nat,
    env: Environment): (r: Result<Config, ConfigError>)
    ensures r.Failure? <==> !EnvVarsParse(env)
    ensures env.instanceIdVar.Failure? ==> r == Failure(InvalidEnvVar(INSTANCE_ID_VAR))
    ensures env.instanceIdVar.Success? && env.namespaceVar.Failure? ==> r == Failure(InvalidEnvVar(NAMESPACE_VAR))
    ensures r.Success? ==> r.value.Enabled?
    ensures r.Success? ==>
      var c := r.value.enabled;
      && c.telemetryServer == telemetryServer
      && c.monitoringServer == monitoringServer
      && c.serviceName == env.packageName
      && c.serviceVersion == env.packageVersion
      && StrictlyIncreasing(c.loggingServers)
      && (forall s :: s in c.loggingServers <==> monitoringServer == Some(s))
      && StrictlyIncreasing(c.tracingServers)
      && (forall s :: s in c.tracingServers <==> telemetryServer == Some(s) || monitoringServer == Some(s))
      && |c.tracingServers| <= 2
      && c.metricsServers == c.tracingServers
      && c.serviceInstanceId == env.instanceIdVar.value.GetOr(env.instanceUuid)
      && c.runId == runId
      && c.traceParent == traceParent
      && c.licenseKey == license.shortcut
      && c.periodicReaderIntervalSecs == intervalSecs
    ensures r.Success? && env.namespaceVar.value.Some? ==>
      r.value.enabled.serviceNamespace == env.namespaceVar.value.value
    ensures r.Success? && env.namespaceVar.value.None? ==>
      var id := r.value.enabled.serviceInstanceId;
      r.value.enabled.serviceNamespace ==
        (if EndsWith(id, LOCAL_DEV_NAMESPACE) then LOCAL_DEV_NAMESPACE else "external-" + env.namespaceUuid)
  {
    if env.instanceIdVar.Failure? then Failure(InvalidEnvVar(INSTANCE_ID_VAR))
    else
      var instanceId := env.instanceIdVar.value.GetOr(env.instanceUuid);
      if env.namespaceVar.Failure? then Failure(InvalidEnvVar(NAMESPACE_VAR))
      else
        var namespace := match env.namespaceVar.value
          case Some(ns) => ns
          case None =>
            if EndsWith(instanceId, LOCAL_DEV_NAMESPACE) then LOCAL_DEV_NAMESPACE
            else "external-" + env.namespaceUuid;
        DeduplicatePair(telemetryServer, monitoringServer);
        Success(Enabled(TelemetryEnabled(
          telemetryServer,
          monitoringServer,
          Deduplicate([monitoringServer]),
          Deduplicate([telemetryServer, monitoringServer]),
          Deduplicate([telemetryServer, monitoringServer]),
          env.packageName,
          env.packageVersion,
          namespace,
          instanceId,
          runId,
          traceParent,
          license.shortcut,
          intervalSecs)))
  }

  /** `Config::create`: the decision whether telemetry is enabled. */
  function Create(
    license: License,
    runId: Option<string>,
    monitoringServer: Option<string>,
    traceParent: Option<string>,
    periodicReaderInterval: Option<u64>,
    env: Environment): (r: Result<Config, ConfigError>)
    // the `monitoring` entitlement check comes before every other outcome
    ensures monitoringServer.Some? && !license.entitled(MONITORING_ENTITLEMENT) ==>
              r == Failure(MissingEntitlement(MONITORING_ENTITLEMENT))
    // nothing to report to: disabled, whatever the license entitles
    ensures monitoringServer.None? && !license.telemetryRequired ==> r == Success(Disabled)
    ensures license.isNoLicenseKey ==> !(r.Success? && r.value.Enabled?)
    ensures (r.Success? && r.value.Enabled?) <==>
              && !license.isNoLicenseKey
              && (monitoringServer.Some? || license.telemetryRequired)
              && (monitoringServer.Some? ==> license.entitled(MONITORING_ENTITLEMENT))
              && (periodicReaderInterval.Some? ==> license.entitled(MONITORING_INTERNAL_ENTITLEMENT))
              && EnvVarsParse(env)
    ensures r.Failure? <==>
              || (monitoringServer.Some? && !license.entitled(MONITORING_ENTITLEMENT))
              || ((monitoringServer.Some? || license.telemetryRequired) &&
                  (|| (periodicReaderInterval.Some? && !license.entitled(MONITORING_INTERNAL_ENTITLEMENT))
                   || (!license.isNoLicenseKey && !EnvVarsParse(env))))
    // an explicit interval without `monitoring-internal` is refused next
    ensures && (monitoringServer.Some? ==> license.entitled(MONITORING_ENTITLEMENT))
            && (monitoringServer.Some? || license.telemetryRequired)
            && periodicReaderInterval.Some? && !license.entitled(MONITORING_INTERNAL_ENTITLEMENT) ==>
              r == Failure(MissingEntitlement(MONITORING_INTERNAL_ENTITLEMENT))
    // past the entitlement checks, a licensed config fails on the first
    // environment variable that does not parse
    ensures && (monitoringServer.Some? ==> license.entitled(MONITORING_ENTITLEMENT))
            && (monitoringServer.Some? || license.telemetryRequired)
            && (periodicReaderInterval.Some? ==> license.entitled(MONITORING_INTERNAL_ENTITLEMENT))
            && !license.isNoLicenseKey && !EnvVarsParse(env) ==>
              r == Failure(InvalidEnvVar(if env.instanceIdVar.Failure? then INSTANCE_ID_VAR else NAMESPACE_VAR))
    // no other error is produced
    ensures r.Failure? ==>
              || r.error == MissingEntitlement(MONITORING_ENTITLEMENT)
              || r.error == MissingEntitlement(MONITORING_INTERNAL_ENTITLEMENT)
              || r.error == InvalidEnvVar(INSTANCE_ID_VAR)
              || r.error == InvalidEnvVar(NAMESPACE_VAR)
    ensures r.Success? && r.value.Enabled? ==>
              var c := r.value.enabled;
              && c.periodicReaderIntervalSecs ==
                   (if periodicReaderInterval.Some? then periodicReaderInterval.value as nat
                    else PERIODIC_READER_INTERVAL_SECS)
              && c.telemetryServer == (if license.telemetryRequired then Some(PATHWAY_TELEMETRY_SERVER) else None)
              && c.monitoringServer == monitoringServer
              && c.runId == runId.GetOr(env.runUuid)
  {
    var runId := runId.GetOr(env.runUuid);
    if monitoringServer.Some? && !license.entitled(MONITORING_ENTITLEMENT) then
      Failure(MissingEntitlement(MONITORING_ENTITLEMENT))
    else
      var telemetryServer := if license.telemetryRequired then Some(PATHWAY_TELEMETRY_SERVER) else None;
      if monitoringServer.None? && telemetryServer.None? then Success(Disabled)
      else if periodicReaderInterval.Some? && !license.entitled(MONITORING_INTERNAL_ENTITLEMENT) then
        Failure(MissingEntitlement(MONITORING_INTERNAL_ENTITLEMENT))
      else
        var intervalSecs :=
          if periodicReaderInterval.Some? then periodicReaderInterval.value as nat
          else PERIODIC_READER_INTERVAL_SECS;
        if license.isNoLicenseKey then Success(Disabled)
        else CreateEnabled(runId, telemetryServer, monitoringServer, traceParent, license, intervalSecs, env)
  }

  // ---------------------------------------------------------------------------
  // filetime_to_seconds
  // ---------------------------------------------------------------------------

  /** `((high as u64) << 32) | (low as u64)` on the two 32-bit halves of a
      `FILETIME`: the shift clears the low 32 bits, so the bitwise or is an
      addition. */
  function FiletimeTicks(high: bv32, low: bv32): (t: u64)
    ensures t as int == high as int * 0x1_0000_0000 + low as int
  {
    (((high as bv64) << 32) | (low as bv64)) as u64
  }

  /** `filetime_to_seconds`: whole seconds in a count of 100-nanosecond
      ticks; the `as i64` cast never wraps. */
  function FiletimeToSeconds(high: bv32, low: bv32): (r: i64)
    ensures 0 <= r
    ensures r as int * 10_000_000 <= high as int * 0x1_0000_0000 + low as int < (r as int + 1) * 10_000_000
  {
    var ticks := FiletimeTicks(high, low) as int;
    var seconds := ticks / 10_000_000;
    assert seconds * 10_000_000 <= ticks < (seconds + 1) * 10_000_000;
    seconds as i64
  }
}
