/** What `generate` promises, stated over its reference definition `Resolve`. */
module Properties {
  import opened Wrappers
  import opened Options
  import opened Components
  import opened Generator

  /** The options pass validation exactly when `input` is non-empty and a left-out or given `hashSize` lies in 1..40. */
  lemma AcceptedIff(options: Option<UserOptions>)
    ensures Accepted(Merge(options)) <==>
      options.None? ||
      (options.value.input != "" &&
       (options.value.hashSize.Absent? ||
        (options.value.hashSize.Given? && 1 <= options.value.hashSize.value <= MaxHashSize)))
  {
  }

  /** An empty `input` gives the all-null record before any file is read or git is run, whatever the type. */
  lemma EmptyInputFails(options: Option<UserOptions>, env: Environment)
    requires options.Some? && options.value.input == ""
    ensures Resolve(options, env) == Run(AllNull, [])
  {
  }

  /** A `hashSize` written as `undefined`, at most 0 or above 40 gives the all-null record, whatever else is set. */
  lemma BadHashSizeFails(options: Option<UserOptions>, env: Environment)
    requires options.Some?
    requires options.value.hashSize.Undefined? ||
             (options.value.hashSize.Given? && (options.value.hashSize.value <= 0 || options.value.hashSize.value > MaxHashSize))
    ensures Resolve(options, env) == Run(AllNull, [])
  {
  }

  /**
   * A file that cannot be read or parsed, or whose `version` is not a
   * string, gives the all-null record after that one read and no git call.
   */
  lemma UnusableFileFails(options: Option<UserOptions>, env: Environment)
    requires Accepted(Merge(options)) && Merge(options).sourceType == Some(File)
    requires !env.readPackage(Merge(options).input).VersionText?
    ensures Resolve(options, env) == Run(AllNull, [ReadFile(Merge(options).input)])
  {
  }

  /**
   * Every record is all-null or has all five fields set; it is all-null
   * exactly when validation or the version source failed.
   */
  lemma AllOrNothing(options: Option<UserOptions>, env: Environment)
    ensures var r := Resolve(options, env).result; r == AllNull || Populated(r)
    ensures Resolve(options, env).result == AllNull <==>
      !Accepted(Merge(options)) || VersionOf(Merge(options), env).None?
  {
  }

  /**
   * With the version text `v` in hand, major, minor and patch are segments
   * 0, 1 and 2 of `v.split('.')` ("" for a missing one), and `full` starts
   * with every segment of `v` joined back by '.', the ones past patch included.
   */
  lemma ComponentsOfResult(options: Option<UserOptions>, env: Environment, v: string)
    requires Accepted(Merge(options)) && VersionOf(Merge(options), env) == Some(v)
    ensures var r := Resolve(options, env).result;
      r.major == Some(Segment(SplitOnDot(v), 0)) &&
      r.minor == Some(Segment(SplitOnDot(v), 1)) &&
      r.patch == Some(Segment(SplitOnDot(v), 2)) &&
      r.full.Some? && Join(SplitOnDot(v)) <= r.full.value
  {
    JoinSplit(v);
  }

  /**
   * The random strategy cannot fail: `hash` has exactly `hashSize`
   * characters of "abcdef0123456789" and `full` is `version-hash`.
   */
  lemma RandomStrategy(options: Option<UserOptions>, env: Environment, v: string)
    requires Accepted(Merge(options)) && VersionOf(Merge(options), env) == Some(v)
    requires !Truthy(Merge(options).git)
    ensures var r := Resolve(options, env).result;
      r.hash.Some? &&
      |r.hash.value| == Merge(options).hashSize.value &&
      (forall k :: 0 <= k < |r.hash.value| ==> r.hash.value[k] in Characters) &&
      r.full == Some(v + "-" + r.hash.value)
  {
  }

  /** Every string of "abcdef0123456789" characters is the hash of some stream of draws. */
  lemma RandomHashCovers(w: string)
    requires forall k :: 0 <= k < |w| ==> w[k] in Characters
    ensures exists draw: nat -> HexIndex :: RandomHash(draw, |w|) == w
  {
    var draw: nat -> HexIndex := (i: nat) => if i < |w| then CharIndex(w[i]) else 0;
    var h := RandomHash(draw, |w|);
    forall k | 0 <= k < |w|
      ensures h[k] == w[k]
    {
      assert draw(k) == CharIndex(w[k]);
    }
    assert h == w;
  }

  /** The position of `c` in the alphabet (0 if it is not there). */
  function CharIndex(c: char): (i: HexIndex)
    ensures c in Characters ==> Characters[i] == c
  {
    var i := Find(Characters, c);
    if i < 16 then i else 0
  }

  /** The first position of `c` in `s`, or `|s|` when there is none. */
  function Find(s: string, c: char): (i: nat)
    ensures i <= |s|
    ensures i < |s| ==> s[i] == c
    ensures c in s ==> i < |s|
  {
    if s == [] then 0
    else if s[0] == c then 0
    else 1 + Find(s[1..], c)
  }

  /**
   * With `type: 'string'` the version is `input` verbatim: `full` is
   * `input-hash`, or the bare `input` when git could not be run.
   */
  lemma LiteralVersion(options: Option<UserOptions>, env: Environment)
    requires Accepted(Merge(options)) && Merge(options).sourceType == Some(Text)
    ensures var r := Resolve(options, env); var gitFailed := Truthy(Merge(options).git) && env.gitHead.None?;
      r.result.hash.Some? &&
      r.result.full == Some(if gitFailed then options.value.input
                            else options.value.input + "-" + r.result.hash.value)
    ensures forall e :: e in Resolve(options, env).effects ==> e == RunGit
  {
  }

  /** With a git revision `out`, `hash` is its prefix of length min(hashSize, |out|). */
  lemma GitStrategy(options: Option<UserOptions>, env: Environment, v: string, out: string)
    requires Accepted(Merge(options)) && VersionOf(Merge(options), env) == Some(v)
    requires Truthy(Merge(options).git) && env.gitHead == Some(out)
    ensures var r := Resolve(options, env); var n := Merge(options).hashSize.value;
      r.result.hash.Some? && r.result.hash.value <= out &&
      |r.result.hash.value| == (if n <= |out| then n else |out|) &&
      r.result.full == Some(v + "-" + r.result.hash.value) &&
      r.effects == ReadEffects(Merge(options)) + [RunGit]
  {
  }

  /**
   * When git cannot be run the record is not all-null: `full` is the bare
   * version, the components are set and `hash` is ""; there is no fallback
   * to random characters.
   */
  lemma GitFailureKeepsVersion(options: Option<UserOptions>, env: Environment, v: string)
    requires Accepted(Merge(options)) && VersionOf(Merge(options), env) == Some(v)
    requires Truthy(Merge(options).git) && env.gitHead.None?
    ensures var r := Resolve(options, env).result;
      r != AllNull &&
      r == UniqueVersion(Some(v), Some(Segment(SplitOnDot(v), 0)), Some(Segment(SplitOnDot(v), 1)),
                         Some(Segment(SplitOnDot(v), 2)), Some(""))
  {
  }

  /**
   * For the same environment, the hash for a smaller `hashSize` is a prefix
   * of the hash for a larger one (with git: the same revision, truncated).
   */
  lemma HashSizeMonotone(input: string, sourceType: Field<SourceType>, git: Field<bool>, n1: int, n2: int, env: Environment)
    requires 1 <= n1 <= n2 <= MaxHashSize
    ensures var r1 := Resolve(Some(UserOptions(input, sourceType, Given(n1), git)), env).result;
            var r2 := Resolve(Some(UserOptions(input, sourceType, Given(n2), git)), env).result;
      r1.hash.Some? == r2.hash.Some? &&
      (r1.hash.Some? ==> r1.hash.value <= r2.hash.value)
  {
    var s1 := Merge(Some(UserOptions(input, sourceType, Given(n1), git)));
    var s2 := Merge(Some(UserOptions(input, sourceType, Given(n2), git)));
    if Truthy(s1.git) {
      if env.gitHead.Some? {
        var out := env.gitHead.value;
        assert TakeAtMost(out, n1) <= TakeAtMost(out, n2);
      }
    } else {
      var h1 := RandomHash(env.draw, n1);
      var h2 := RandomHash(env.draw, n2);
      assert h1 == h2[..n1];
    }
  }

  /**
   * A file whose `version` is a non-empty `v` gives the same record as the
   * literal `v` with the same hash options; the only extra call is the one
   * read of the file, made once validation has passed.
   */
  lemma FileMatchesLiteral(path: string, v: string, hashSize: Field<int>, git: Field<bool>, env: Environment)
    requires path != "" && v != ""
    requires env.readPackage(path) == VersionText(v)
    ensures var fromFile := Resolve(Some(UserOptions(path, Given(File), hashSize, git)), env);
            var literal := Resolve(Some(UserOptions(v, Given(Text), hashSize, git)), env);
      fromFile.result == literal.result &&
      fromFile.effects ==
        (if Accepted(Merge(Some(UserOptions(path, Given(File), hashSize, git)))) then [ReadFile(path)] else []) +
        literal.effects
  {
  }

  /**
   * The equivalence needs a non-empty version: a file whose `version` is ""
   * gives a populated record, the literal "" the all-null one.
   */
  lemma EmptyFileVersionDiffers(path: string, env: Environment)
    requires path != "" && env.readPackage(path) == VersionText("")
    ensures Populated(Resolve(Some(UserOptions(path, Given(File), Absent, Absent)), env).result)
    ensures Resolve(Some(UserOptions("", Given(Text), Absent, Absent)), env).result == AllNull
  {
  }

  /**
   * `type: undefined` matches neither branch: the version is "", nothing is
   * read, and the components are all "".
   */
  lemma UndefinedTypeUsesEmptyVersion(options: Option<UserOptions>, env: Environment)
    requires Accepted(Merge(options)) && options.Some? && options.value.sourceType.Undefined?
    ensures var r := Resolve(options, env).result;
      r.major == Some("") && r.minor == Some("") && r.patch == Some("") && r.hash.Some?
    ensures var r := Resolve(options, env).result; var gitFailed := Truthy(Merge(options).git) && env.gitHead.None?;
      r.full == Some(if gitFailed then "" else "-" + r.hash.value)
    ensures forall e :: e in Resolve(options, env).effects ==> e == RunGit
  {
    var s := Merge(options);
    assert VersionOf(s, env) == Some("");
    assert ReadEffects(s) == [];
    assert SplitOnDot("") == [""];
    var h := HashOf(s, env, s.hashSize.value);
    if h.Some? {
      assert "" + "-" + h.value == "-" + h.value;
    }
  }

  /**
   * One call reads at most the one file `input` and runs git at most once,
   * in that order, and runs git only once it has a version.
   */
  lemma EffectsInOrder(options: Option<UserOptions>, env: Environment)
    ensures var s := Merge(options); var e := Resolve(options, env).effects;
      e in {[], [ReadFile(s.input)], [RunGit], [ReadFile(s.input), RunGit]}
    ensures RunGit in Resolve(options, env).effects ==>
      Truthy(Merge(options).git) && Accepted(Merge(options)) && VersionOf(Merge(options), env).Some?
  {
    var s := Merge(options);
    if Accepted(s) && VersionOf(s, env).Some? {
      var e := Resolve(options, env).effects;
      if s.sourceType == Some(File) {
        if Truthy(s.git) {
          assert e == [ReadFile(s.input), RunGit];
        } else {
          assert e == [ReadFile(s.input)];
        }
      } else {
        assert e == if Truthy(s.git) then [RunGit] else [];
      }
    }
  }

  /** Without options: read "package.json", then run git for a 7-character hash. */
  lemma DefaultsRun(env: Environment)
    ensures var r := Resolve(None, env);
      match env.readPackage(DefaultInput)
      case VersionText(v) =>
        r.effects == [ReadFile(DefaultInput), RunGit] &&
        (env.gitHead.Some? ==> r.result.hash == Some(TakeAtMost(env.gitHead.value, 7)))
      case _ => r == Run(AllNull, [ReadFile(DefaultInput)])
  {
  }
}
