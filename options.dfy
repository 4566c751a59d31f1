/**
 * The options object of `generate` and the object spread that merges it
 * over the defaults.
 */
module Options {
  import opened Wrappers

  /**
   * One optional property of an object literal, as the spread operator sees
   * it: left out of the literal, written out as `undefined`, or given a value.
   */
  datatype Field<+T> = Absent | Undefined | Given(value: T)

  /** The two values the `type` option may take: 'file' and 'string'. */
  datatype SourceType = File | Text

  /**
   * `UniqueVersionOptions` as a caller writes it. `input` is required by the
   * interface; the other three properties may be left out or set to `undefined`.
   */
  datatype UserOptions = UserOptions(
    input: string,
    sourceType: Field<SourceType>,
    hashSize: Field<int>,
    git: Field<bool>)

  /** The options after the merge: every property present, possibly `undefined` (`None`). */
  datatype Settings = Settings(
    input: string,
    sourceType: Option<SourceType>,
    hashSize: Option<int>,
    git: Option<bool>)

  const DefaultInput: string := "package.json"
  const DefaultHashSize: int := 7
  const MaxHashSize: int := 40

  /** The defaults object: read package.json, a 7-character hash, git on. */
  const Defaults: Settings := Settings(DefaultInput, Some(File), Some(DefaultHashSize), Some(true))

  /** The value a property takes once the caller's object is spread over the defaults. */
  function Spread<T>(f: Field<T>, default: Option<T>): Option<T> {
    match f
    case Absent => default
    case Undefined => None
    case Given(v) => Some(v)
  }

  /**
   * `{ ...defaults, ...options }`. A missing `options` object leaves the
   * defaults; a property written as `undefined` overrides its default.
   */
  function Merge(options: Option<UserOptions>): (s: Settings)
    ensures options.None? ==> s == Defaults
    ensures options.Some? ==> s.input == options.value.input
    // a property left out keeps its default
    ensures options.Some? && options.value.sourceType.Absent? ==> s.sourceType == Some(File)
    ensures options.Some? && options.value.hashSize.Absent? ==> s.hashSize == Some(DefaultHashSize)
    ensures options.Some? && options.value.git.Absent? ==> s.git == Some(true)
    // a property written as `undefined` overrides its default with `undefined`
    ensures options.Some? && options.value.sourceType.Undefined? ==> s.sourceType.None?
    ensures options.Some? && options.value.hashSize.Undefined? ==> s.hashSize.None?
    ensures options.Some? && options.value.git.Undefined? ==> s.git.None?
    // a property given a value overrides its default with that value
    ensures options.Some? && options.value.sourceType.Given? ==> s.sourceType == Some(options.value.sourceType.value)
    ensures options.Some? && options.value.hashSize.Given? ==> s.hashSize == Some(options.value.hashSize.value)
    ensures options.Some? && options.value.git.Given? ==> s.git == Some(options.value.git.value)
  {
    match options
    case None => Defaults
    case Some(o) =>
      Settings(o.input,
               Spread(o.sourceType, Defaults.sourceType),
               Spread(o.hashSize, Defaults.hashSize),
               Spread(o.git, Defaults.git))
  }

  /** JavaScript truthiness of the merged `git` property: `undefined` is falsy. */
  predicate Truthy(git: Option<bool>) {
    git == Some(true)
  }

  /** The early exits of `generate`: an empty `input`, or a `hashSize` that is undefined or outside 1..40. */
  predicate Accepted(s: Settings) {
    s.input != "" && s.hashSize.Some? && !(s.hashSize.value <= 0 || s.hashSize.value > MaxHashSize)
  }
}
