/**
 * Loading an env.yaml file into the process environment: `config` and its
 * alias `load` (lib/main.js lines 40-69).
 *
 * The file system is a parameter: `readFile` stands for reading a file at a
 * location with an encoding, giving its text or the error it raised. The
 * process environment is the object `ProcessEnv`, whose variables are a map.
 */
module Environment {
  import opened Wrappers
  import opened LineParser

  /** Where the file is read from: env.yaml in the working directory, or a path the caller gave. */
  datatype Location = DefaultLocation | PathLocation(path: string)

  /** The encoding used when the caller gives none. */
  const DefaultEncoding: string := "utf8"

  /** The options object; a property that is absent is None. */
  datatype Options = Options(path: Option<string>, encoding: Option<string>)

  /** The error raised by reading the file, kept as an opaque description. */
  datatype IoError = IoError(description: string)

  /** What reading the file gives: its decoded text, or the error it raised. */
  datatype ReadResult = Read(text: string) | ReadError(error: IoError)

  /** What `config` returns: `{ parsed }` on success, `{ error }` on failure. */
  datatype ConfigResult = Parsed(parsed: map<string, string>) | Failed(error: IoError)

  /** A string option counts as given only when present and non-empty, as in a JavaScript `if`. */
  predicate Given(option: Option<string>) {
    option.Some? && option.value != ""
  }

  /** The location read: the given path if there is one, otherwise the default. */
  function EffectiveLocation(options: Option<Options>): (r: Location)
    ensures r == DefaultLocation <==> options.None? || !Given(options.value.path)
    ensures r.PathLocation? ==> r.path == options.value.path.value && r.path != ""
  {
    if options.Some? && Given(options.value.path) then PathLocation(options.value.path.value)
    else DefaultLocation
  }

  /** The encoding used: the given encoding if there is one, otherwise utf8. */
  function EffectiveEncoding(options: Option<Options>): (r: string)
    ensures r != ""
    ensures options.Some? && Given(options.value.encoding) ==> r == options.value.encoding.value
    ensures options.None? || !Given(options.value.encoding) ==> r == DefaultEncoding
  {
    if options.Some? && Given(options.value.encoding) then options.value.encoding.value
    else DefaultEncoding
  }

  /**
   * The environment after the parsed variables are added to it: a variable
   * already set keeps its value, and every other parsed variable is added.
   */
  function Merge(env: map<string, string>, parsed: map<string, string>): (r: map<string, string>)
    ensures r.Keys == env.Keys + parsed.Keys
    ensures forall k :: k in env ==> r[k] == env[k]
    ensures forall k :: k in parsed && k !in env ==> r[k] == parsed[k]
  {
    map k | k in env.Keys + parsed.Keys :: if k in env then env[k] else parsed[k]
  }

  /** Nothing parsed, nothing changed. */
  lemma MergeNothing(env: map<string, string>)
    ensures Merge(env, map[]) == env
  {
  }

  /** Loading the same file twice changes nothing the second time. */
  lemma MergeIdempotent(env: map<string, string>, parsed: map<string, string>)
    ensures Merge(Merge(env, parsed), parsed) == Merge(env, parsed)
  {
  }

  /**
   * Loading one file and then another is loading their union in which the
   * first file wins: whatever is set first is never overwritten.
   */
  lemma MergeFirstWins(env: map<string, string>, first: map<string, string>, second: map<string, string>)
    ensures Merge(Merge(env, first), second) == Merge(env, Merge(first, second))
  {
  }

  /** One more parsed variable: added when not yet set, ignored otherwise. */
  lemma MergeOneMore(env: map<string, string>, parsed: map<string, string>, key: string, value: string)
    requires key !in parsed
    ensures key in Merge(env, parsed) ==>
      Merge(env, parsed[key := value]) == Merge(env, parsed)
    ensures key !in Merge(env, parsed) ==>
      Merge(env, parsed[key := value]) == Merge(env, parsed)[key := value]
  {
  }

  /** The process environment, whose variables `config` sets. */
  class ProcessEnv {
    var vars: map<string, string>

    constructor (initial: map<string, string>)
      ensures vars == initial
    {
      vars := initial;
    }

    /**
     * Reads the file named by the options, parses it and sets every parsed
     * variable that is not already set; returns the parsed object. When the
     * read fails, returns its error and leaves the environment untouched.
     */
    method Config(options: Option<Options>, readFile: (Location, string) -> ReadResult) returns (result: ConfigResult)
      modifies this
      ensures var read := readFile(EffectiveLocation(options), EffectiveEncoding(options));
        read.ReadError? ==> result == Failed(read.error) && vars == old(vars)
      ensures var read := readFile(EffectiveLocation(options), EffectiveEncoding(options));
        read.Read? ==> result == Parsed(ParseText(read.text)) && vars == Merge(old(vars), ParseText(read.text))
    {
      var location := DefaultLocation;
      var encoding := DefaultEncoding;
      if options.Some? {
        if Given(options.value.path) {
          location := PathLocation(options.value.path.value);
        }
        if Given(options.value.encoding) {
          encoding := options.value.encoding.value;
        }
      }
      match readFile(location, encoding)
      case ReadError(error) =>
        result := Failed(error);
      case Read(text) =>
        var parsed := Parse(text);
        SetMissing(parsed);
        result := Parsed(parsed);
    }

    /** Sets each parsed variable that is not already set, one key at a time in any order. */
    method SetMissing(parsed: map<string, string>)
      modifies this
      ensures vars == Merge(old(vars), parsed)
    {
      var pending := parsed.Keys;
      while pending != {}
        invariant pending <= parsed.Keys
        invariant vars == Merge(old(vars), parsed - pending)
        decreases |pending|
      {
        var key :| key in pending;
        MergeOneMore(old(vars), parsed - pending, key, parsed[key]);
        assert (parsed - pending)[key := parsed[key]] == parsed - (pending - {key});
        if key !in vars {
          vars := vars[key := parsed[key]];
        }
        pending := pending - {key};
      }
      assert parsed - {} == parsed;
    }

    /** `load` is `config` under another name. */
    method Load(options: Option<Options>, readFile: (Location, string) -> ReadResult) returns (result: ConfigResult)
      modifies this
      ensures var read := readFile(EffectiveLocation(options), EffectiveEncoding(options));
        read.ReadError? ==> result == Failed(read.error) && vars == old(vars)
      ensures var read := readFile(EffectiveLocation(options), EffectiveEncoding(options));
        read.Read? ==> result == Parsed(ParseText(read.text)) && vars == Merge(old(vars), ParseText(read.text))
    {
      result := Config(options, readFile);
    }
  }
}
