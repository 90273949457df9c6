/**
 * Parsing of an instance's tags into a start-stop configuration.
 *
 * The tags are folded left to right into an accumulator that starts at the
 * configuration's defaults (no start firing, no stop firing, enabled). A
 * start or stop tag is evaluated with the cron oracle against the reference
 * instant `now`; the first evaluation that fails aborts the whole fold.
 */
module Config {
  import opened Wrappers

  /** The three recognised tag keys (case-sensitive). */
  const EnableTag: string := "start-stop:enable"
  const StartTag: string := "start-stop:start"
  const StopTag: string := "start-stop:stop"

  /** The lower-case spellings of the enable tag that mean "enabled". */
  const TruthyValues: seq<string> := ["enabled", "yes", "true", "1", "on"]

  /** An instant, already normalised to the configured time zone. */
  type Instant = int

  /** The three exceptions the parser catches from cron evaluation. */
  datatype CronError = BadCron | BadDate | BadType

  /**
   * Cron evaluation: given an expression and a reference instant, the most
   * recent firing or the error it raises. Nothing is assumed about it.
   */
  type CronOracle = (string, Instant) -> Result<Instant, CronError>

  datatype Tag = Tag(key: string, value: string)

  datatype StartStopConfig = StartStopConfig(prevStart: Option<Instant>, prevStop: Option<Instant>, enabled: bool)

  /** Why no configuration could be built. */
  datatype ConfigError = CronFailed(cause: CronError) | NoSchedule

  /** The accumulator before any tag is read: the dataclass defaults. */
  const Defaults: StartStopConfig := StartStopConfig(None, None, true)

  predicate IsScheduleKey(key: string) {
    key == StartTag || key == StopTag
  }

  function LowerChar(c: char): char {
    if 'A' <= c <= 'Z' then (c as int + ('a' as int - 'A' as int)) as char else c
  }

  /** Lower-casing of a tag value (ASCII letters only). */
  function Lower(s: string): string {
    seq(|s|, i requires 0 <= i < |s| => LowerChar(s[i]))
  }

  /** Whether an enable-tag value switches the feature on. */
  predicate IsTruthy(v: string) {
    Lower(v) in TruthyValues
  }

  /**
   * The effect of one tag on the accumulator, or the cron error it raises.
   * The three keys are distinct, so at most one of the source's three
   * independent key tests applies to a tag.
   */
  function ApplyTag(acc: StartStopConfig, tag: Tag, now: Instant, cron: CronOracle): Result<StartStopConfig, CronError>
  {
    if tag.key == StartTag then
      match cron(tag.value, now)
      case Failure(e) => Failure(e)
      case Success(t) => Success(acc.(prevStart := Some(t)))
    else if tag.key == StopTag then
      match cron(tag.value, now)
      case Failure(e) => Failure(e)
      case Success(t) => Success(acc.(prevStop := Some(t)))
    else if tag.key == EnableTag then
      Success(acc.(enabled := IsTruthy(tag.value)))
    else
      Success(acc)
  }

  /** The loop over the tags; the first failing tag ends it. */
  function FoldTags(acc: StartStopConfig, tags: seq<Tag>, now: Instant, cron: CronOracle): Result<StartStopConfig, CronError>
    decreases |tags|
  {
    if |tags| == 0 then Success(acc)
    else
      match ApplyTag(acc, tags[0], now, cron)
      case Failure(e) => Failure(e)
      case Success(next) => FoldTags(next, tags[1..], now, cron)
  }

  /** The configuration with the reason for its absence kept. */
  function ParseConfig(tags: seq<Tag>, now: Instant, cron: CronOracle): (r: Result<StartStopConfig, ConfigError>)
    ensures r.Success? ==> r.value.prevStart.Some? || r.value.prevStop.Some?
    ensures r == Failure(NoSchedule) ==> CronsSucceed(tags, now, cron)
  {
    FoldTagsSpec(Defaults, tags, now, cron);
    match FoldTags(Defaults, tags, now, cron)
    case Failure(e) => Failure(CronFailed(e))
    case Success(c) =>
      if c.prevStart.Some? || c.prevStop.Some? then Success(c) else Failure(NoSchedule)
  }

  /** `from_instance_tags`: the configuration, or `None` for either failure. */
  function FromInstanceTags(tags: seq<Tag>, now: Instant, cron: CronOracle): Option<StartStopConfig>
  {
    ParseConfig(tags, now, cron).ToOption()
  }

  // ---------------------------------------------------------------------
  // Reference definitions, written without the fold.
  // ---------------------------------------------------------------------

  /** The value of the last tag carrying `key`, if any. */
  function LastValue(tags: seq<Tag>, key: string): Option<string>
    decreases |tags|
  {
    if |tags| == 0 then None
    else
      match LastValue(tags[1..], key)
      case Some(v) => Some(v)
      case None => if tags[0].key == key then Some(tags[0].value) else None
  }

  predicate HasKey(tags: seq<Tag>, key: string) {
    exists i :: 0 <= i < |tags| && tags[i].key == key
  }

  /** Every start and stop tag holds an expression the oracle evaluates. */
  predicate CronsSucceed(tags: seq<Tag>, now: Instant, cron: CronOracle) {
    forall i :: 0 <= i < |tags| && IsScheduleKey(tags[i].key) ==> cron(tags[i].value, now).Success?
  }

  /** The firing of the last tag carrying `key`, or `default` when there is none. */
  function LatestFiring(tags: seq<Tag>, key: string, now: Instant, cron: CronOracle, default: Option<Instant>): Option<Instant>
  {
    match LastValue(tags, key)
    case None => default
    case Some(v) => cron(v, now).ToOption()
  }

  /** The meaning of the last enable tag, or `default` when there is none. */
  function LatestEnabled(tags: seq<Tag>, default: bool): bool
  {
    match LastValue(tags, EnableTag)
    case None => default
    case Some(v) => IsTruthy(v)
  }

  /** The configuration given by the last tag of each key, `acc`'s field where a key is absent. */
  function LastTagsConfig(acc: StartStopConfig, tags: seq<Tag>, now: Instant, cron: CronOracle): StartStopConfig
  {
    StartStopConfig(
      LatestFiring(tags, StartTag, now, cron, acc.prevStart),
      LatestFiring(tags, StopTag, now, cron, acc.prevStop),
      LatestEnabled(tags, acc.enabled))
  }

  /** Case-insensitive equality of two strings. */
  predicate EqualsIgnoringCase(a: string, b: string) {
    |a| == |b| && forall i :: 0 <= i < |a| ==> LowerChar(a[i]) == LowerChar(b[i])
  }

  // ---------------------------------------------------------------------
  // Lemmas.
  // ---------------------------------------------------------------------

  /** `LastValue` is the value of the last occurrence of the key. */
  lemma {:induction false} LastValueIsLastOccurrence(tags: seq<Tag>, key: string)
    ensures LastValue(tags, key).None? <==> !HasKey(tags, key)
    ensures LastValue(tags, key).Some? ==>
      exists i :: 0 <= i < |tags| && tags[i] == Tag(key, LastValue(tags, key).value)
        && forall j :: i < j < |tags| ==> tags[j].key != key
    decreases |tags|
  {
    if |tags| > 0 {
      var rest := tags[1..];
      LastValueIsLastOccurrence(rest, key);
      if HasKey(rest, key) {
        var k :| 0 <= k < |rest| && rest[k].key == key;
        assert tags[k + 1].key == key;
      }
      if HasKey(tags, key) && tags[0].key != key {
        var k :| 0 <= k < |tags| && tags[k].key == key;
        assert rest[k - 1].key == key;
      }
      match LastValue(rest, key)
      case Some(v) =>
        var i :| 0 <= i < |rest| && rest[i] == Tag(key, v) && forall j :: i < j < |rest| ==> rest[j].key != key;
        assert tags[i + 1] == Tag(key, v);
        forall j | i + 1 < j < |tags|
          ensures tags[j].key != key
        {
          assert tags[j] == rest[j - 1];
        }
      case None =>
        if tags[0].key == key {
          forall j | 0 < j < |tags|
            ensures tags[j].key != key
          {
            assert tags[j] == rest[j - 1];
          }
        }
    }
  }

  /**
   * The fold is all-or-nothing: it succeeds exactly when every start and stop
   * tag evaluates, and then each field holds the meaning of the last tag with
   * its key (or the accumulator's value when no such tag exists).
   */
  lemma {:induction false} FoldTagsSpec(acc: StartStopConfig, tags: seq<Tag>, now: Instant, cron: CronOracle)
    ensures FoldTags(acc, tags, now, cron).Success? <==> CronsSucceed(tags, now, cron)
    ensures CronsSucceed(tags, now, cron) ==> FoldTags(acc, tags, now, cron) == Success(LastTagsConfig(acc, tags, now, cron))
    decreases |tags|
  {
    if |tags| > 0 {
      var t, rest := tags[0], tags[1..];
      assert CronsSucceed(tags, now, cron) <==>
        (IsScheduleKey(t.key) ==> cron(t.value, now).Success?) && CronsSucceed(rest, now, cron)
      by {
        if CronsSucceed(tags, now, cron) {
          forall i | 0 <= i < |rest| && IsScheduleKey(rest[i].key)
            ensures cron(rest[i].value, now).Success?
          {
            assert rest[i] == tags[i + 1];
          }
        }
        if (IsScheduleKey(t.key) ==> cron(t.value, now).Success?) && CronsSucceed(rest, now, cron) {
          forall i | 0 <= i < |tags| && IsScheduleKey(tags[i].key)
            ensures cron(tags[i].value, now).Success?
          {
            if i > 0 {
              assert tags[i] == rest[i - 1];
            }
          }
        }
      }
      match ApplyTag(acc, t, now, cron)
      case Failure(e) =>
      case Success(next) =>
        FoldTagsSpec(next, rest, now, cron);
    }
  }

  /** If a start or stop tag fails the fold fails with the error of the first failing one. */
  lemma {:induction false} FoldTagsFirstFailure(acc: StartStopConfig, tags: seq<Tag>, now: Instant, cron: CronOracle)
    requires FoldTags(acc, tags, now, cron).Failure?
    ensures exists i :: (0 <= i < |tags| && IsScheduleKey(tags[i].key)
      && cron(tags[i].value, now) == Failure(FoldTags(acc, tags, now, cron).error)
      && CronsSucceed(tags[..i], now, cron))
    decreases |tags|
  {
    var e := FoldTags(acc, tags, now, cron).error;
    var t, rest := tags[0], tags[1..];
    match ApplyTag(acc, t, now, cron)
    case Failure(e0) =>
      assert tags[..0] == [];
      assert cron(tags[0].value, now) == Failure(e);
    case Success(next) =>
      FoldTagsFirstFailure(next, rest, now, cron);
      var i :| 0 <= i < |rest| && IsScheduleKey(rest[i].key)
        && cron(rest[i].value, now) == Failure(e) && CronsSucceed(rest[..i], now, cron);
      assert tags[i + 1] == rest[i];
      var prefix := tags[..i + 1];
      forall j | 0 <= j < |prefix| && IsScheduleKey(prefix[j].key)
        ensures cron(prefix[j].value, now).Success?
      {
        if j > 0 {
          assert prefix[j] == rest[..i][j - 1];
        }
      }
  }

  /**
   * `from_instance_tags`: a configuration is returned exactly when every
   * start/stop expression evaluates and at least one of the two keys is
   * present; it then carries the firing of the last start tag, the firing of
   * the last stop tag and the meaning of the last enable tag (true without one).
   */
  lemma FromInstanceTagsSpec(tags: seq<Tag>, now: Instant, cron: CronOracle)
    ensures FromInstanceTags(tags, now, cron).Some? <==>
      CronsSucceed(tags, now, cron) && (HasKey(tags, StartTag) || HasKey(tags, StopTag))
    ensures FromInstanceTags(tags, now, cron).Some? ==>
      FromInstanceTags(tags, now, cron).value == StartStopConfig(
        LatestFiring(tags, StartTag, now, cron, None),
        LatestFiring(tags, StopTag, now, cron, None),
        LatestEnabled(tags, true))
  {
    FoldTagsSpec(Defaults, tags, now, cron);
    if CronsSucceed(tags, now, cron) {
      LatestFiringPresent(tags, StartTag, now, cron);
      LatestFiringPresent(tags, StopTag, now, cron);
    }
  }

  /** Under successful evaluation, a firing is recorded exactly when its key is present. */
  lemma LatestFiringPresent(tags: seq<Tag>, key: string, now: Instant, cron: CronOracle)
    requires IsScheduleKey(key)
    requires CronsSucceed(tags, now, cron)
    ensures LatestFiring(tags, key, now, cron, None).Some? <==> HasKey(tags, key)
  {
    LastValueIsLastOccurrence(tags, key);
  }

  /** Without an enable tag a returned configuration is enabled. */
  lemma EnabledDefaultsToTrue(tags: seq<Tag>, now: Instant, cron: CronOracle)
    requires !HasKey(tags, EnableTag)
    requires FromInstanceTags(tags, now, cron).Some?
    ensures FromInstanceTags(tags, now, cron).value.enabled
  {
    FromInstanceTagsSpec(tags, now, cron);
    LastValueIsLastOccurrence(tags, EnableTag);
  }

  /** A repeated enable tag: the last occurrence decides, whatever came before. */
  lemma LastEnableTagWins(before: seq<Tag>, v: string, after: seq<Tag>, now: Instant, cron: CronOracle)
    requires !HasKey(after, EnableTag)
    requires FromInstanceTags(before + [Tag(EnableTag, v)] + after, now, cron).Some?
    ensures FromInstanceTags(before + [Tag(EnableTag, v)] + after, now, cron).value.enabled == IsTruthy(v)
  {
    var tags := before + [Tag(EnableTag, v)] + after;
    FromInstanceTagsSpec(tags, now, cron);
    LastValueAfter(before + [Tag(EnableTag, v)], after, EnableTag);
    LastValueOfLast(before, Tag(EnableTag, v), EnableTag);
  }

  lemma {:induction false} LastValueAfter(front: seq<Tag>, back: seq<Tag>, key: string)
    requires !HasKey(back, key)
    ensures LastValue(front + back, key) == LastValue(front, key)
    decreases |front|
  {
    if |front| == 0 {
      LastValueIsLastOccurrence(back, key);
      assert front + back == back;
    } else {
      assert (front + back)[1..] == front[1..] + back;
      LastValueAfter(front[1..], back, key);
    }
  }

  lemma {:induction false} LastValueOfLast(front: seq<Tag>, t: Tag, key: string)
    requires t.key == key
    ensures LastValue(front + [t], key) == Some(t.value)
    decreases |front|
  {
    if |front| == 0 {
      assert (front + [t])[1..] == [];
    } else {
      assert (front + [t])[1..] == front[1..] + [t];
      LastValueOfLast(front[1..], t, key);
    }
  }

  /** All-or-nothing: one failing start or stop expression discards the whole configuration. */
  lemma CronFailureYieldsNone(tags: seq<Tag>, i: nat, now: Instant, cron: CronOracle)
    requires i < |tags| && IsScheduleKey(tags[i].key)
    requires cron(tags[i].value, now).Failure?
    ensures FromInstanceTags(tags, now, cron) == None
  {
    FromInstanceTagsSpec(tags, now, cron);
  }

  /** Neither a start nor a stop tag: no configuration. */
  lemma NoScheduleYieldsNone(tags: seq<Tag>, now: Instant, cron: CronOracle)
    requires !HasKey(tags, StartTag) && !HasKey(tags, StopTag)
    ensures ParseConfig(tags, now, cron).Failure?
    ensures FromInstanceTags(tags, now, cron) == None
  {
    FromInstanceTagsSpec(tags, now, cron);
  }

  /**
   * The instance query only returns instances carrying both a start and a
   * stop tag. For those a configuration, when there is one, always has both
   * firings, so the single-firing branch of the resolver is never reached.
   */
  lemma BothKeysGiveBothFirings(tags: seq<Tag>, now: Instant, cron: CronOracle)
    requires HasKey(tags, StartTag) && HasKey(tags, StopTag)
    requires FromInstanceTags(tags, now, cron).Some?
    ensures FromInstanceTags(tags, now, cron).value.prevStart.Some?
    ensures FromInstanceTags(tags, now, cron).value.prevStop.Some?
  {
    FromInstanceTagsSpec(tags, now, cron);
    LatestFiringPresent(tags, StartTag, now, cron);
    LatestFiringPresent(tags, StopTag, now, cron);
  }

  /** The enable value is read case-insensitively against the vocabulary. */
  lemma TruthyIgnoresCase(v: string)
    ensures IsTruthy(v) <==> exists w :: w in TruthyValues && EqualsIgnoringCase(v, w)
  {
    if IsTruthy(v) {
      var w := Lower(v);
      assert w in TruthyValues;
      VocabularyIsLowerCase(w);
      assert EqualsIgnoringCase(v, w);
    }
    if w :| w in TruthyValues && EqualsIgnoringCase(v, w) {
      VocabularyIsLowerCase(w);
      assert Lower(v) == w;
    }
  }

  lemma VocabularyIsLowerCase(w: string)
    requires w in TruthyValues
    ensures forall i :: 0 <= i < |w| ==> LowerChar(w[i]) == w[i]
  {
  }

  /** The enable values used by the test fixture and some of their case variants. */
  lemma TruthyExamples()
    ensures IsTruthy("True") && IsTruthy("YES") && IsTruthy("Enabled") && IsTruthy("1") && IsTruthy("oN")
    ensures !IsTruthy("False") && !IsTruthy("0") && !IsTruthy("") && !IsTruthy("enable")
  {
    assert Lower("True") == "true";
    assert Lower("YES") == "yes";
    assert Lower("Enabled") == "enabled";
    assert Lower("1") == "1";
    assert Lower("oN") == "on";
    assert Lower("False") == "false";
    assert Lower("0") == "0";
    assert Lower("") == "";
    assert Lower("enable") == "enable";
  }
}
