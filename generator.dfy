/**
 * `generate`: validate the merged options, obtain the version text, split
 * it, produce the hash and assemble the `UniqueVersion` record.
 *
 * The three effects of the function are parameters, collected in an
 * `Environment`: what reading and parsing a JSON file yields, the standard
 * output of `git rev-parse HEAD` (or its failure), and the stream of
 * `Math.floor(Math.random() * 16)` draws.
 */
module Generator {
  import opened Wrappers
  import opened Options
  import opened Components

  /** The result record; `None` is `null`. */
  datatype UniqueVersion = UniqueVersion(
    full: Option<string>,
    major: Option<string>,
    minor: Option<string>,
    patch: Option<string>,
    hash: Option<string>)

  /** The record with every field `null`, as `ret` is initialised. */
  const AllNull: UniqueVersion := UniqueVersion(None, None, None, None, None)

  /** Every field of the record holds a string. */
  predicate Populated(r: UniqueVersion) {
    r.full.Some? && r.major.Some? && r.minor.Some? && r.patch.Some? && r.hash.Some?
  }

  /**
   * What `JSON.parse(readFileSync(path).toString()).version` yields: an
   * exception (file missing or unreadable, not JSON, or a JSON `null` whose
   * `version` cannot be read), a string, or a value of another type
   * (including a missing `version`).
   */
  datatype PackageRead = ReadFailed | VersionText(text: string) | VersionNotText

  /** The values of `Math.floor(Math.random() * characters.length)`. */
  type HexIndex = i: int | 0 <= i < 16

  /**
   * The outside world of one call: the file system seen through the JSON
   * parser, the standard output of `git rev-parse HEAD` (`None` when
   * `execSync` throws), and `draw(i)`, the index the i-th random draw yields.
   */
  datatype Environment = Environment(
    readPackage: string -> PackageRead,
    gitHead: Option<string>,
    draw: nat -> HexIndex)

  /** The external calls a run makes, in order. */
  datatype Effect = ReadFile(path: string) | RunGit

  /** The record a call returns, with the external calls it made. */
  datatype Run = Run(result: UniqueVersion, effects: seq<Effect>)

  /** The alphabet of the random hash. */
  const Characters: string := "abcdef0123456789"

  /** `hash.substr(0, n)`: the first `n` characters, or all of `hash` if it is shorter. */
  function TakeAtMost(hash: string, n: nat): (r: string)
    ensures r <= hash
    ensures |r| == if n <= |hash| then n else |hash|
  {
    if n <= |hash| then hash[..n] else hash
  }

  /** The random hash of `n` characters: character `i` is picked by draw `i`. */
  function RandomHash(draw: nat -> HexIndex, n: nat): (h: string)
    ensures |h| == n
    ensures forall k :: 0 <= k < n ==> h[k] in Characters
  {
    seq(n, i requires 0 <= i < n => Characters[draw(i)])
  }

  /** The version text, or `None` when its source fails or is not a string. */
  function VersionOf(s: Settings, env: Environment): Option<string> {
    match s.sourceType
    case Some(File) =>
      (match env.readPackage(s.input)
       case VersionText(t) => Some(t)
       case _ => None)
    case Some(Text) => Some(s.input)
    case None => Some("")
  }

  /** The hash, or `None` when `git` was asked for and could not be run. */
  function HashOf(s: Settings, env: Environment, n: nat): Option<string> {
    if Truthy(s.git) then
      (match env.gitHead
       case Some(out) => Some(TakeAtMost(out, n))
       case None => None)
    else Some(RandomHash(env.draw, n))
  }

  /** The file read, if the version comes from a file. */
  function ReadEffects(s: Settings): seq<Effect> {
    if s.sourceType == Some(File) then [ReadFile(s.input)] else []
  }

  /** The record for version `v`: the hash appended when there is one, "" in its place when it failed. */
  function Assemble(v: string, hash: Option<string>): UniqueVersion {
    var parts := SplitOnDot(v);
    UniqueVersion(
      Some(if hash.Some? then v + "-" + hash.value else v),
      Some(Segment(parts, 0)), Some(Segment(parts, 1)), Some(Segment(parts, 2)),
      Some(hash.GetOr("")))
  }

  /** The reference definition of `generate`, stage by stage. */
  function Resolve(options: Option<UserOptions>, env: Environment): Run {
    var s := Merge(options);
    if !Accepted(s) then Run(AllNull, [])
    else match VersionOf(s, env)
      case None => Run(AllNull, ReadEffects(s))
      case Some(v) =>
        Run(Assemble(v, HashOf(s, env, s.hashSize.value)),
            ReadEffects(s) + if Truthy(s.git) then [RunGit] else [])
  }

  /**
   * `generate(options)`: fills in `ret` field by field and leaves at the
   * first failure, with the external calls it made listed in `effects`.
   */
  method Generate(options: Option<UserOptions>, env: Environment) returns (ret: UniqueVersion, effects: seq<Effect>)
    ensures Run(ret, effects) == Resolve(options, env)
  {
    ret := AllNull;
    effects := [];
    var o := Merge(options);

    if o.input == "" {
      return;
    }
    if o.hashSize.None? || o.hashSize.value <= 0 || o.hashSize.value > MaxHashSize {
      return;
    }
    var hashSize: nat := o.hashSize.value;

    // `None` stands for a version that is not a string
    var version: Option<string> := Some("");
    if o.sourceType == Some(File) {
      effects := effects + [ReadFile(o.input)];
      match env.readPackage(o.input) {
        case ReadFailed =>
          return;
        case VersionText(t) =>
          version := Some(t);
        case VersionNotText =>
          version := None;
      }
    } else if o.sourceType == Some(Text) {
      version := Some(o.input);
    }
    if version.None? {
      return;
    }

    var v := version.value;
    var components := SplitOnDot(v);
    ret := ret.(full := Some(v));
    ret := ret.(major := Some(Segment(components, 0)));
    ret := ret.(minor := Some(Segment(components, 1)));
    ret := ret.(patch := Some(Segment(components, 2)));
    ret := ret.(hash := Some(""));

    var hash := "";
    if Truthy(o.git) {
      effects := effects + [RunGit];
      if env.gitHead.None? {
        return;
      }
      hash := TakeAtMost(env.gitHead.value, hashSize);
    } else {
      for i := 0 to hashSize
        invariant hash == RandomHash(env.draw, i)
      {
        hash := hash + [Characters[env.draw(i)]];
      }
    }

    ret := ret.(full := Some(v + "-" + hash));
    ret := ret.(hash := Some(hash));
  }
}
