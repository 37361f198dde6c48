/** The `${tag:...}` format providers (NLite/Internal/TagFormatProvider.cs):
    the constant `Tag` and `SupportColon` getters of every provider, and the
    key parser of `PropertyFormatProvider.Format`, which splits a default off
    at the last `??` and then follows a `/`-separated path through nested
    property sets. */
module TagFormat {
  import opened Seqs

  // ---------------------------------------------------------------------------
  // Providers
  // ---------------------------------------------------------------------------

  datatype Provider =
    | DateColon            // DateColonFormatProvider
    | Date                 // DateFormatProvider
    | Time                 // TimeFormatProvider
    | ProductName          // ProductNameFormatProvider
    | Guid                 // GuidFormateProvider
    | SdkPath              // SdkPathFormateProvider
    | EnvironmentVariable  // EnvironmentVariableFormatProvider
    | Property             // PropertyFormatProvider

  /** The tag a provider answers to. */
  function Tag(p: Provider): (t: string)
    ensures |t| > 0
    ensures t == "DATE" <==> p == DateColon || p == Date
  {
    match p
    case DateColon => "DATE"
    case Date => "DATE"
    case Time => "TIME"
    case ProductName => "PRODUCTNAME"
    case Guid => "GUID"
    case SdkPath => "SDK_PATH"
    case EnvironmentVariable => "ENV"
    case Property => "PROPERTY"
  }

  /** Whether the provider takes an argument after a colon. */
  function SupportColon(p: Provider): (b: bool)
    ensures b <==> p == DateColon || p == EnvironmentVariable || p == Property
  {
    match p
    case DateColon => true
    case Date => false
    case Time => false
    case ProductName => false
    case Guid => false
    case SdkPath => false
    case EnvironmentVariable => true
    case Property => true
  }

  /** The property provider is `PROPERTY` with colon support; the two `DATE`
      providers differ only in their colon support. */
  lemma ProviderConstants()
    ensures Tag(Property) == "PROPERTY" && SupportColon(Property)
    ensures Tag(DateColon) == Tag(Date) && SupportColon(DateColon) && !SupportColon(Date)
  {
  }

  /** The tag together with the colon flag names exactly one provider. */
  lemma TagAndColonIdentifyProvider(p: Provider, q: Provider)
    requires Tag(p) == Tag(q) && SupportColon(p) == SupportColon(q)
    ensures p == q
  {
    match p
    case DateColon =>
    case Date =>
    case Time => assert Tag(p)[1] == 'I';
    case ProductName => assert Tag(p)[0] == 'P' && Tag(p)[1] == 'R';
    case Guid => assert Tag(p)[0] == 'G';
    case SdkPath => assert Tag(p)[0] == 'S';
    case EnvironmentVariable => assert Tag(p)[0] == 'E';
    case Property => assert Tag(p)[0] == 'P' && Tag(p)[2] == 'O';
  }

  // ---------------------------------------------------------------------------
  // The property store
  // ---------------------------------------------------------------------------

  /** `PropertySet`: a dictionary from names to text values or nested sets. */
  datatype PropertySet = PropertySet(entries: map<string, PropertyValue>)

  datatype PropertyValue = Text(text: string) | Group(group: PropertySet)

  /** `properties.Get(key, new PropertySet())`: the nested set stored under
      `key`, or an empty set. */
  function GetSet(properties: PropertySet, key: string): PropertySet {
    if key in properties.entries && properties.entries[key].Group? then properties.entries[key].group
    else PropertySet(map[])
  }

  /** `properties.Get(key, defaultValue)`: the text stored under `key`, or
      the default. */
  function GetText(properties: PropertySet, key: string, defaultValue: string): string {
    if key in properties.entries && properties.entries[key].Text? then properties.entries[key].text
    else defaultValue
  }

  // ---------------------------------------------------------------------------
  // String searches (ordinal)
  // ---------------------------------------------------------------------------

  /** `??` starts at position `i` of `s`. */
  predicate PairAt(s: string, i: int) {
    0 <= i && i + 2 <= |s| && s[i] == '?' && s[i + 1] == '?'
  }

  /** `s.LastIndexOf("??", StringComparison.Ordinal)`. */
  function LastIndexOfPair(s: string): (r: int)
    ensures -1 <= r
    ensures r >= 0 ==> PairAt(s, r) && forall k :: r < k ==> !PairAt(s, k)
    ensures r < 0 ==> forall k :: !PairAt(s, k)
  {
    if |s| < 2 then -1
    else if s[|s| - 2] == '?' && s[|s| - 1] == '?' then |s| - 2
    else
      var r := LastIndexOfPair(s[..|s| - 1]);
      assert forall k :: PairAt(s, k) && k != |s| - 2 ==> PairAt(s[..|s| - 1], k);
      r
  }

  /** A path segment: no `/` in it. */
  predicate NoSlash(segment: string) {
    forall k :: 0 <= k < |segment| ==> segment[k] != '/'
  }

  /** `s.IndexOf('/')`: the position of the first `/`, or -1 when there is none. */
  function IndexOfSlash(s: string): (r: int)
    ensures -1 <= r < |s|
    ensures r < 0 ==> NoSlash(s)
    ensures r >= 0 ==> s[r] == '/' && NoSlash(s[..r])
  {
    if s == [] then -1
    else if s[0] == '/' then 0
    else
      var r := IndexOfSlash(s[1..]);
      if r < 0 then -1 else r + 1
  }

  /** A `/` with none before it is the one `IndexOfSlash` finds. */
  lemma {:induction false} FirstSlash(s: string, i: int)
    requires 0 <= i < |s| && s[i] == '/' && NoSlash(s[..i])
    ensures IndexOfSlash(s) == i
  {
    if i > 0 {
      assert s[0] == s[..i][0];
      assert s[1..][..i - 1] == s[..i][1..];
      FirstSlash(s[1..], i - 1);
    }
  }

  // ---------------------------------------------------------------------------
  // The key grammar: `path??default`, `path` = `segment/segment/...`
  // ---------------------------------------------------------------------------

  /** The key part of `str`: the text before the last `??`, or all of it. */
  function KeyOf(str: string): string {
    var pos := LastIndexOfPair(str);
    if pos >= 0 then str[..pos] else str
  }

  /** The default part of `str`: the text after the last `??`, or empty. */
  function DefaultOf(str: string): string {
    var pos := LastIndexOfPair(str);
    if pos >= 0 then str[pos + 2..] else ""
  }

  /** Splitting off the default loses nothing, and the default never holds
      a `??` of its own: it is the text after the LAST one. */
  lemma DefaultSplit(str: string)
    ensures LastIndexOfPair(str) >= 0 ==> str == KeyOf(str) + "??" + DefaultOf(str)
    ensures LastIndexOfPair(str) < 0 ==> KeyOf(str) == str && DefaultOf(str) == ""
    ensures forall k :: !PairAt(DefaultOf(str), k)
  {
    var pos := LastIndexOfPair(str);
    if pos >= 0 {
      assert str == str[..pos] + "??" + str[pos + 2..];
      forall k | PairAt(DefaultOf(str), k) ensures false {
        assert PairAt(str, pos + 2 + k);
      }
    }
  }

  /** The `/`-separated segments of a path; there is always at least one. */
  function Split(s: string): (r: seq<string>)
    ensures |r| >= 1
    decreases |s|
  {
    var pos := IndexOfSlash(s);
    if pos < 0 then [s] else [s[..pos]] + Split(s[pos + 1..])
  }

  /** The segments joined back with `/`. */
  function Join(segments: seq<string>): string
    requires |segments| >= 1
  {
    if |segments| == 1 then segments[0] else segments[0] + "/" + Join(segments[1..])
  }

  /** Every segment `Split` produces is free of `/`. */
  lemma {:induction false} SplitSegments(s: string)
    ensures forall i :: 0 <= i < |Split(s)| ==> NoSlash(Split(s)[i])
    decreases |s|
  {
    var pos := IndexOfSlash(s);
    if pos >= 0 {
      SplitSegments(s[pos + 1..]);
      assert Split(s) == [s[..pos]] + Split(s[pos + 1..]);
    }
  }

  /** Joining a segment in front of others puts a `/` between them. */
  lemma JoinCons(head: string, tail: seq<string>)
    requires |tail| >= 1
    ensures Join([head] + tail) == head + "/" + Join(tail)
  {
    assert ([head] + tail)[1..] == tail;
  }

  /** Cutting a string around one of its characters loses nothing. */
  lemma Reassemble(s: string, pos: int)
    requires 0 <= pos < |s| && s[pos] == '/'
    ensures s[..pos] + "/" + s[pos + 1..] == s
  {
    assert s[pos..] == "/" + s[pos + 1..];
    assert s == s[..pos] + s[pos..];
  }

  /** `Split` loses nothing: joining the segments gives the path back. */
  lemma {:induction false} JoinSplit(s: string)
    ensures Join(Split(s)) == s
    decreases |s|
  {
    var pos := IndexOfSlash(s);
    if pos >= 0 {
      var rest := s[pos + 1..];
      JoinSplit(rest);
      JoinCons(s[..pos], Split(rest));
      Reassemble(s, pos);
    }
  }

  /** `Split` is the only way to cut a path into `/`-free segments. */
  lemma {:induction false} SplitJoin(segments: seq<string>)
    requires |segments| >= 1
    requires forall i :: 0 <= i < |segments| ==> NoSlash(segments[i])
    ensures Split(Join(segments)) == segments
  {
    var head := segments[0];
    assert NoSlash(head);
    if |segments| > 1 {
      var tail := segments[1..];
      forall i | 0 <= i < |tail| ensures NoSlash(tail[i]) {
        assert tail[i] == segments[i + 1];
      }
      SplitJoin(tail);
      var s := head + "/" + Join(tail);
      assert s[..|head|] == head;
      FirstSlash(s, |head|);
      assert s[|head| + 1..] == Join(tail);
      assert [head] + tail == segments;
    }
  }

  // ---------------------------------------------------------------------------
  // What `Format` computes
  // ---------------------------------------------------------------------------

  datatype FormatError = ArgumentOutOfRange

  /** `PropertyFormatProvider.Format` as the program is written: a path of
      one or two segments is looked up, and any longer path ends in the
      out-of-range error of `Substring`, because the loop never recomputes
      the position of the next `/`. */
  function FormatAsWritten(root: PropertySet, str: string): Result<string, FormatError> {
    var key := KeyOf(str);
    var segments := Split(key);
    if |segments| == 1 then Ok(GetText(root, key, DefaultOf(str)))
    else if |segments| == 2 then Ok(GetText(GetSet(root, segments[0]), segments[1], DefaultOf(str)))
    else Err(ArgumentOutOfRange)
  }

  /** The navigation the loop evidently intends: every segment but the last
      selects a nested set (an empty one when it is missing), and the last
      one is looked up with the default. */
  function Lookup(properties: PropertySet, segments: seq<string>, defaultValue: string): string
    requires |segments| >= 1
    decreases |segments|
  {
    if |segments| == 1 then GetText(properties, segments[0], defaultValue)
    else Lookup(GetSet(properties, segments[0]), segments[1..], defaultValue)
  }

  /** `Format` as intended: the whole path is followed. */
  function FormatPath(root: PropertySet, str: string): string {
    Lookup(root, Split(KeyOf(str)), DefaultOf(str))
  }

  /** Whatever follows the last `??` is the default, `/` or not: the path
      that is navigated is the text before it. */
  lemma DefaultDoesNotNavigate(key: string, defaultValue: string)
    requires forall k :: !PairAt("?" + defaultValue, k)
    ensures KeyOf(key + "??" + defaultValue) == key
    ensures DefaultOf(key + "??" + defaultValue) == defaultValue
  {
    var str := key + "??" + defaultValue;
    assert PairAt(str, |key|);
    var tail := "?" + defaultValue;
    assert str[|key| + 1..] == tail;
    forall k | |key| < k ensures !PairAt(str, k) {
      var j := k - |key| - 1;
      assert !PairAt(tail, j);
      assert k + 2 <= |str| ==> str[k] == tail[j] && str[k + 1] == tail[j + 1];
    }
    assert LastIndexOfPair(str) == |key|;
    assert str[..|key|] == key;
    assert str[|key| + 2..] == defaultValue;
  }

  /** A store that holds nothing yields the default for every key. */
  lemma {:induction false} LookupInEmpty(segments: seq<string>, defaultValue: string)
    requires |segments| >= 1
    ensures Lookup(PropertySet(map[]), segments, defaultValue) == defaultValue
  {
    if |segments| > 1 {
      LookupInEmpty(segments[1..], defaultValue);
    }
  }

  /** The routine as written over a store that holds nothing: the default
      for a key of at most one `/`, the `Substring` error for more. */
  lemma FormatInEmpty(str: string)
    ensures FormatAsWritten(PropertySet(map[]), str) ==
      if |Split(KeyOf(str))| <= 2 then Ok(DefaultOf(str)) else Err(ArgumentOutOfRange)
  {
    if |Split(KeyOf(str))| <= 2 {
      ShortPathsAgree(PropertySet(map[]), str);
      LookupInEmpty(Split(KeyOf(str)), DefaultOf(str));
    }
  }

  /** For at most one `/` the program does what it evidently intends. */
  lemma ShortPathsAgree(root: PropertySet, str: string)
    requires |Split(KeyOf(str))| <= 2
    ensures FormatAsWritten(root, str) == Ok(FormatPath(root, str))
  {
    var key := KeyOf(str);
    var segments := Split(key);
    if |segments| == 1 {
      assert segments == [key];
    } else {
      var next := GetSet(root, segments[0]);
      assert segments[1..] == [segments[1]];
      assert Lookup(root, segments, DefaultOf(str)) == Lookup(next, [segments[1]], DefaultOf(str));
    }
  }

  /** The three outcomes of the routine as written, by the `/`s of the key:
      none, one, or more than one. */
  lemma FormatCases(root: PropertySet, str: string)
    ensures var key := KeyOf(str);
      var pos := IndexOfSlash(key);
      (pos < 0 ==> FormatAsWritten(root, str) == Ok(GetText(root, key, DefaultOf(str)))) &&
      (pos >= 0 ==>
        var rest := key[pos + 1..];
        (IndexOfSlash(rest) < 0 ==>
          FormatAsWritten(root, str) == Ok(GetText(GetSet(root, key[..pos]), rest, DefaultOf(str)))) &&
        (IndexOfSlash(rest) >= 0 ==> FormatAsWritten(root, str) == Err(ArgumentOutOfRange)))
  {
    var key := KeyOf(str);
    var pos := IndexOfSlash(key);
    if pos >= 0 {
      SplitAfterFirst(key);
      FormatAfterSlash(root, str, key, pos);
    }
  }

  lemma FormatAfterSlash(root: PropertySet, str: string, key: string, pos: int)
    requires key == KeyOf(str) && pos == IndexOfSlash(key) && pos >= 0
    requires IndexOfSlash(key[pos + 1..]) >= 0 ==> |Split(key)| >= 3
    requires IndexOfSlash(key[pos + 1..]) < 0 ==> Split(key) == [key[..pos], key[pos + 1..]]
    ensures IndexOfSlash(key[pos + 1..]) < 0 ==>
      FormatAsWritten(root, str) == Ok(GetText(GetSet(root, key[..pos]), key[pos + 1..], DefaultOf(str)))
    ensures IndexOfSlash(key[pos + 1..]) >= 0 ==> FormatAsWritten(root, str) == Err(ArgumentOutOfRange)
  {
  }

  /** The finding: a three-segment key fails where a nested lookup is meant. */
  lemma NestedPathFails()
    ensures var root := PropertySet(map["a" := Group(PropertySet(map["b" := Group(PropertySet(map["c" := Text("v")]))]))]);
      FormatAsWritten(root, "a/b/c") == Err(ArgumentOutOfRange) &&
      FormatPath(root, "a/b/c") == "v"
  {
    assert LastIndexOfPair("a/b/c") == -1;
    SplitJoin(["a", "b", "c"]);
    assert Join(["a", "b", "c"]) == "a/b/c";
    assert ["a", "b", "c"][1..] == ["b", "c"];
    assert ["b", "c"][1..] == ["c"];
  }

  // ---------------------------------------------------------------------------
  // The routine itself
  // ---------------------------------------------------------------------------

  /** One step of the loop: the first segment is looked up and leaves the
      rest of the path. */
  lemma LookupStep(properties: PropertySet, s: string, defaultValue: string)
    requires IndexOfSlash(s) >= 0
    ensures var pos := IndexOfSlash(s);
      Lookup(properties, Split(s), defaultValue) ==
      Lookup(GetSet(properties, s[..pos]), Split(s[pos + 1..]), defaultValue)
  {
    var pos := IndexOfSlash(s);
    assert Split(s)[1..] == Split(s[pos + 1..]);
  }

  /** The first statements of `Format`: the default is cut off at the last
      `??`, and what precedes it is the key. */
  method SplitDefault(str: string) returns (key: string, defaultValue: string)
    // with a `??`, the key, the `??` and the default give the text back, and
    // the default holds no `??` of its own; without one, the key is the text
    ensures LastIndexOfPair(str) >= 0 ==> str == key + "??" + defaultValue
    ensures LastIndexOfPair(str) < 0 ==> key == str && defaultValue == ""
    ensures forall k :: !PairAt(defaultValue, k)
    ensures key == KeyOf(str) && defaultValue == DefaultOf(str)
  {
    DefaultSplit(str);
    key := str;
    defaultValue := "";
    var pos := LastIndexOfPair(key);
    if pos >= 0 {
      defaultValue := key[pos + 2..];
      key := key[..pos];
    }
  }

  /** `PropertyFormatProvider.Format(str)` against the root properties of
      `PropertyManager`, as written: `pos` is computed once before the loop,
      so the loop only ends when `Substring` rejects its arguments. */
  method Format(root: PropertySet, str: string) returns (r: Result<string, FormatError>)
    ensures r == FormatAsWritten(root, str)
  {
    var s, defaultValue := SplitDefault(str);
    FormatCases(root, str);
    var pos := IndexOfSlash(s);
    if pos >= 0 {
      var properties := GetSet(root, s[..pos]);
      s := s[pos + 1..];
      pos := IndexOfSlash(s);
      while pos >= 0
        invariant pos >= 0 ==> FormatAsWritten(root, str) == Err(ArgumentOutOfRange)
        invariant pos < 0 ==> FormatAsWritten(root, str) == Ok(GetText(properties, s, defaultValue))
        decreases |s|
      {
        if pos > |s| {
          return Err(ArgumentOutOfRange);
        }
        properties := GetSet(properties, s[..pos]);
        if pos + 1 > |s| {
          return Err(ArgumentOutOfRange);
        }
        s := s[pos + 1..];
      }
      return Ok(GetText(properties, s, defaultValue));
    } else {
      return Ok(GetText(root, s, defaultValue));
    }
  }

  /** The segments of a path with a `/`: its first segment, then at least two
      more when the rest holds another `/`, or exactly the rest otherwise. */
  lemma SplitAfterFirst(key: string)
    requires IndexOfSlash(key) >= 0
    ensures var pos := IndexOfSlash(key);
      var rest := key[pos + 1..];
      (IndexOfSlash(rest) >= 0 ==> |Split(key)| >= 3) &&
      (IndexOfSlash(rest) < 0 ==> Split(key) == [key[..pos], rest])
  {
    var pos := IndexOfSlash(key);
    var rest := key[pos + 1..];
    assert Split(key) == [key[..pos]] + Split(rest);
    if IndexOfSlash(rest) < 0 {
      assert Split(rest) == [rest];
    }
  }

  /** The same routine with the position of the next `/` recomputed after
      every step, which walks the whole path. */
  method FormatCorrected(root: PropertySet, str: string) returns (r: string)
    ensures r == FormatPath(root, str)
  {
    var s, defaultValue := SplitDefault(str);
    var properties := root;
    var pos := IndexOfSlash(s);
    while pos >= 0
      invariant pos == IndexOfSlash(s)
      invariant Lookup(properties, Split(s), defaultValue) == FormatPath(root, str)
      decreases |s|
    {
      LookupStep(properties, s, defaultValue);
      properties := GetSet(properties, s[..pos]);
      s := s[pos + 1..];
      pos := IndexOfSlash(s);
    }
    return GetText(properties, s, defaultValue);
  }
}
