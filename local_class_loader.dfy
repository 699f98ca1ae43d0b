/**
 * `LocalClassLoader` of the SPI demo client: the plugin-archive scan of a
 * directory (`loadJar`), the lookup of implementation class names in the
 * `META-INF/spring.factories` resources (`loadFactoryNames`) and the jar URL
 * handed to a `URLClassLoader` (`loadJarBySpi`).
 *
 * The file system and the class loader's resources are inputs: a directory is
 * its list of child entries, and a resource is either its already parsed
 * properties or unreadable (an `IOException` while loading it).
 */
module LocalClassLoader {
  import opened Wrappers
  import opened StringUtils

  /*************************************************************************
   * loadJar
   *************************************************************************/

  /** One child of a directory, as `File.listFiles()` returns it. */
  datatype FileEntry = FileEntry(name: string, isDirectory: bool)

  /** What `new File(path)` refers to: a directory with its listing, or not a directory. */
  datatype FileNode = NotADirectory | Directory(children: seq<FileEntry>)

  const JarSuffix: string := ".jar"

  /** Java's case-sensitive `name.endsWith(".jar")`. */
  predicate EndsWithJar(name: string)
    ensures EndsWithJar(name) <==> exists stem: string :: name == stem + JarSuffix
  {
    var n := |name| - |JarSuffix|;
    if n >= 0 && name[n..] == JarSuffix then
      assert name == name[..n] + JarSuffix;
      true
    else
      assert forall stem: string :: name == stem + JarSuffix ==> name[n..] == JarSuffix;
      false
  }

  /** The names of the entries of `listing` that end in ".jar", in listing order. */
  function JarNames(listing: seq<FileEntry>): (r: seq<string>)
    ensures forall k :: 0 <= k < |r| ==> EndsWithJar(r[k])
    ensures |r| <= |listing|
  {
    if listing == [] then []
    else (if EndsWithJar(listing[0].name) then [listing[0].name] else []) + JarNames(listing[1..])
  }

  /** `JarNames` distributes over concatenation of listings. */
  lemma {:induction false} JarNamesAppend(a: seq<FileEntry>, b: seq<FileEntry>)
    ensures JarNames(a + b) == JarNames(a) + JarNames(b)
    decreases |a|
  {
    if a == [] {
      assert a + b == b;
    } else {
      assert (a + b)[0] == a[0];
      assert (a + b)[1..] == a[1..] + b;
      JarNamesAppend(a[1..], b);
    }
  }

  /**
   * `loadJar`: the bare names of the children of a directory that end in
   * ".jar", in listing order; nothing when the path is not a directory.
   * Entries that are themselves directories are not excluded.
   */
  method LoadJar(file: FileNode) returns (result: seq<string>)
    ensures file.NotADirectory? ==> result == []
    ensures file.Directory? ==> result == JarNames(file.children)
    ensures forall k :: 0 <= k < |result| ==> EndsWithJar(result[k])
    ensures file.Directory? ==> |result| <= |file.children|
  {
    result := [];
    if file.Directory? {
      var files := file.children;
      for i := 0 to |files|
        invariant result == JarNames(files[..i])
      {
        var f := files[i];
        JarNamesAppend(files[..i], [f]);
        assert files[..i + 1] == files[..i] + [f];
        if EndsWithJar(f.name) {
          result := result + [f.name];
        }
      }
      assert files[..|files|] == files;
    }
  }

  /** Each position of `idx` is an entry of `listing` whose name, ending in ".jar", is the matching one of `names`. */
  ghost predicate PicksJarNames(idx: seq<nat>, names: seq<string>, listing: seq<FileEntry>) {
    && |idx| == |names|
    && forall k :: 0 <= k < |idx| ==>
         idx[k] < |listing| && names[k] == listing[idx[k]].name && EndsWithJar(names[k])
  }

  /** The positions are strictly increasing: listing order is kept and nothing repeats. */
  ghost predicate StrictlyIncreasing(idx: seq<nat>) {
    forall k, l :: 0 <= k < l < |idx| ==> idx[k] < idx[l]
  }

  /** Every entry of `listing` whose name ends in ".jar" is picked. */
  ghost predicate CoversJarEntries(idx: seq<nat>, listing: seq<FileEntry>) {
    forall j :: 0 <= j < |listing| && EndsWithJar(listing[j].name) ==>
      exists k :: 0 <= k < |idx| && idx[k] == j
  }

  /**
   * `idx` lists, strictly increasing, exactly the positions of `listing`
   * whose names end in ".jar", and `names` holds those names in that order.
   */
  ghost predicate SelectsJarEntries(idx: seq<nat>, names: seq<string>, listing: seq<FileEntry>) {
    PicksJarNames(idx, names, listing) && StrictlyIncreasing(idx) && CoversJarEntries(idx, listing)
  }

  /** Shifts every position of `idx` one place to the right. */
  function Shifted(idx: seq<nat>): (r: seq<nat>)
    ensures |r| == |idx| && forall k :: 0 <= k < |idx| ==> r[k] == idx[k] + 1
  {
    seq(|idx|, k requires 0 <= k < |idx| => idx[k] + 1)
  }

  /** Picking extends past a first entry that matches. */
  lemma PicksAfterMatch(idx: seq<nat>, names: seq<string>, listing: seq<FileEntry>)
    requires listing != [] && EndsWithJar(listing[0].name)
    requires PicksJarNames(idx, names, listing[1..])
    ensures PicksJarNames([0] + Shifted(idx), [listing[0].name] + names, listing)
  {
    var idx', names' := [0] + Shifted(idx), [listing[0].name] + names;
    forall k | 0 <= k < |idx'|
      ensures idx'[k] < |listing| && names'[k] == listing[idx'[k]].name && EndsWithJar(names'[k])
    {
      if k > 0 {
        assert idx'[k] == idx[k - 1] + 1 && names'[k] == names[k - 1];
        assert listing[1..][idx[k - 1]] == listing[idx'[k]];
      }
    }
  }

  /** Covering extends past a first entry that matches. */
  lemma CoversAfterMatch(idx: seq<nat>, listing: seq<FileEntry>)
    requires listing != []
    requires CoversJarEntries(idx, listing[1..])
    ensures CoversJarEntries([0] + Shifted(idx), listing)
  {
    var idx' := [0] + Shifted(idx);
    forall j | 0 <= j < |listing| && EndsWithJar(listing[j].name)
      ensures exists k :: 0 <= k < |idx'| && idx'[k] == j
    {
      if j == 0 {
        assert idx'[0] == 0;
      } else {
        assert listing[1..][j - 1] == listing[j];
        var k :| 0 <= k < |idx| && idx[k] == j - 1;
        assert idx'[k + 1] == j;
      }
    }
  }

  /** A selection from the rest of a listing extends past a first entry that matches. */
  lemma SelectsAfterMatch(idx: seq<nat>, names: seq<string>, listing: seq<FileEntry>)
    requires listing != [] && EndsWithJar(listing[0].name)
    requires SelectsJarEntries(idx, names, listing[1..])
    ensures SelectsJarEntries([0] + Shifted(idx), [listing[0].name] + names, listing)
  {
    var idx' := [0] + Shifted(idx);
    PicksAfterMatch(idx, names, listing);
    forall k, l | 0 <= k < l < |idx'|
      ensures idx'[k] < idx'[l]
    {
      if k > 0 {
        assert idx[k - 1] < idx[l - 1];
      }
    }
    CoversAfterMatch(idx, listing);
  }

  /** Picking extends past a first entry that does not match. */
  lemma PicksAfterSkip(idx: seq<nat>, names: seq<string>, listing: seq<FileEntry>)
    requires listing != []
    requires PicksJarNames(idx, names, listing[1..])
    ensures PicksJarNames(Shifted(idx), names, listing)
  {
    var idx' := Shifted(idx);
    forall k | 0 <= k < |idx'|
      ensures idx'[k] < |listing| && names[k] == listing[idx'[k]].name && EndsWithJar(names[k])
    {
      assert listing[1..][idx[k]] == listing[idx'[k]];
    }
  }

  /** Covering extends past a first entry that does not match. */
  lemma CoversAfterSkip(idx: seq<nat>, listing: seq<FileEntry>)
    requires listing != [] && !EndsWithJar(listing[0].name)
    requires CoversJarEntries(idx, listing[1..])
    ensures CoversJarEntries(Shifted(idx), listing)
  {
    var idx' := Shifted(idx);
    forall j | 0 <= j < |listing| && EndsWithJar(listing[j].name)
      ensures exists k :: 0 <= k < |idx'| && idx'[k] == j
    {
      assert listing[1..][j - 1] == listing[j];
      var k :| 0 <= k < |idx| && idx[k] == j - 1;
      assert idx'[k] == j;
    }
  }

  /** A selection from the rest of a listing extends past a first entry that does not match. */
  lemma SelectsAfterSkip(idx: seq<nat>, names: seq<string>, listing: seq<FileEntry>)
    requires listing != [] && !EndsWithJar(listing[0].name)
    requires SelectsJarEntries(idx, names, listing[1..])
    ensures SelectsJarEntries(Shifted(idx), names, listing)
  {
    PicksAfterSkip(idx, names, listing);
    CoversAfterSkip(idx, listing);
  }

  /** The positions of the entries of `listing` whose names end in ".jar". */
  ghost function JarPositions(listing: seq<FileEntry>): seq<nat> {
    if listing == [] then []
    else if EndsWithJar(listing[0].name) then [0] + Shifted(JarPositions(listing[1..]))
    else Shifted(JarPositions(listing[1..]))
  }

  /** `JarPositions` selects exactly the names `JarNames` keeps. */
  lemma {:induction false} JarPositionsSelect(listing: seq<FileEntry>)
    ensures SelectsJarEntries(JarPositions(listing), JarNames(listing), listing)
    decreases |listing|
  {
    if listing != [] {
      var rest := listing[1..];
      JarPositionsSelect(rest);
      if EndsWithJar(listing[0].name) {
        SelectsAfterMatch(JarPositions(rest), JarNames(rest), listing);
      } else {
        SelectsAfterSkip(JarPositions(rest), JarNames(rest), listing);
      }
    }
  }

  /**
   * The result of `loadJar` on a directory is exactly the subsequence of the
   * listing's names that end in ".jar": order kept, every match present once.
   */
  lemma JarNamesIsFilteredSubsequence(listing: seq<FileEntry>)
    ensures exists idx :: SelectsJarEntries(idx, JarNames(listing), listing)
  {
    JarPositionsSelect(listing);
  }

  /** A name is kept if and only if some entry of the listing has it and it ends in ".jar". */
  lemma {:induction false} JarNamesMembership(listing: seq<FileEntry>, name: string)
    ensures name in JarNames(listing) <==>
            EndsWithJar(name) && exists j :: 0 <= j < |listing| && listing[j].name == name
    decreases |listing|
  {
    if listing != [] {
      JarNamesMembership(listing[1..], name);
      if exists j :: 0 <= j < |listing[1..]| && listing[1..][j].name == name {
        var j :| 0 <= j < |listing[1..]| && listing[1..][j].name == name;
        assert listing[j + 1].name == name;
      }
      if exists j :: 0 <= j < |listing| && listing[j].name == name {
        var j :| 0 <= j < |listing| && listing[j].name == name;
        if j > 0 {
          assert listing[1..][j - 1].name == name;
        }
      }
    }
  }

  /** Only names are consulted: whether an entry is itself a directory does not matter. */
  lemma {:induction false} JarNamesIgnoresEntryKind(a: seq<FileEntry>, b: seq<FileEntry>)
    requires |a| == |b|
    requires forall j :: 0 <= j < |a| ==> a[j].name == b[j].name
    ensures JarNames(a) == JarNames(b)
    decreases |a|
  {
    if a != [] {
      JarNamesIgnoresEntryKind(a[1..], b[1..]);
    }
  }

  /** The kept names are the entries' own names, so they are bare when the listing's are. */
  lemma JarNamesAreBare(listing: seq<FileEntry>)
    requires forall j :: 0 <= j < |listing| ==> '/' !in listing[j].name
    ensures forall k :: 0 <= k < |JarNames(listing)| ==> '/' !in JarNames(listing)[k]
  {
    JarNamesIsFilteredSubsequence(listing);
    var idx :| SelectsJarEntries(idx, JarNames(listing), listing);
    forall k | 0 <= k < |JarNames(listing)|
      ensures '/' !in JarNames(listing)[k]
    {
      assert JarNames(listing)[k] == listing[idx[k]].name;
    }
  }

  /*************************************************************************
   * loadFactoryNames
   *************************************************************************/

  /** A class, whose `getName()` is its fully qualified name. */
  datatype ClassRef = ClassRef(packageName: string, simpleName: string) {
    function Name(): (n: string)
      ensures |n| >= |simpleName| && n[|n| - |simpleName|..] == simpleName
      ensures packageName != "" ==>
                |n| == |packageName| + 1 + |simpleName|
                && n[..|packageName|] == packageName && n[|packageName|] == '.'
      ensures packageName == "" ==> n == simpleName
    {
      if packageName == "" then simpleName else packageName + "." + simpleName
    }
  }

  /** One `META-INF/spring.factories` resource: parsed properties, or an `IOException` on loading. */
  datatype Resource = Parsed(properties: map<string, string>) | Unreadable

  /** The lookup key `jarName + "." + factoryClass.getName()`. */
  function FactoryKey(jarName: string, factoryClass: ClassRef): (key: string)
    ensures |key| == |jarName| + 1 + |factoryClass.Name()|
    ensures key[..|jarName|] == jarName
    ensures key[|jarName|] == '.'
    ensures key[|jarName| + 1..] == factoryClass.Name()
  {
    var className := factoryClass.Name();
    DottedParts(jarName, className);
    jarName + "." + className
  }

  /** The two parts of a dotted string sit on either side of the dot. */
  lemma DottedParts(front: string, back: string)
    ensures |front + "." + back| == |front| + 1 + |back|
    ensures (front + "." + back)[..|front|] == front
    ensures (front + "." + back)[|front|] == '.'
    ensures (front + "." + back)[|front| + 1..] == back
  {
    var s := front + "." + back;
    assert s[..|front|] == front;
    assert s[|front| + 1..] == back;
  }

  /** For one jar, distinct factory classes have distinct keys. */
  lemma FactoryKeyInjectiveInClass(jarName: string, c1: ClassRef, c2: ClassRef)
    requires FactoryKey(jarName, c1) == FactoryKey(jarName, c2)
    ensures c1.Name() == c2.Name()
  {
    assert FactoryKey(jarName, c1)[|jarName| + 1..] == FactoryKey(jarName, c2)[|jarName| + 1..];
  }

  /** For one factory class, distinct jar names have distinct keys. */
  lemma FactoryKeyInjectiveInJar(j1: string, j2: string, factoryClass: ClassRef)
    requires FactoryKey(j1, factoryClass) == FactoryKey(j2, factoryClass)
    ensures j1 == j2
  {
    assert |j1| == |j2|;
    assert FactoryKey(j1, factoryClass)[..|j1|] == FactoryKey(j2, factoryClass)[..|j2|];
  }

  /**
   * Across jars the key is ambiguous: a dot may belong to the jar name or to
   * the package, so jar "a" with class `b.C` and jar "a.b" with a class `C`
   * in the unnamed package look up the same property.
   */
  lemma FactoryKeyAmbiguousAcrossJars()
    ensures FactoryKey("a", ClassRef("b", "C")) == FactoryKey("a.b", ClassRef("", "C"))
  {
  }

  /** `Properties.getProperty`: `None` (Java's `null`) when the key is absent. */
  function GetProperty(properties: map<string, string>, key: string): (r: Option<string>)
    ensures r.Some? <==> key in properties
    ensures r.Some? ==> r.value == properties[key]
  {
    if key in properties then Some(properties[key]) else None
  }

  /** The names one resource adds: its value for `key`, cut at every comma. */
  function Contribution(properties: map<string, string>, key: string): (r: seq<string>)
    ensures key !in properties ==> r == []
    ensures key in properties && properties[key] != "" ==> Join(r) == properties[key]
    ensures key in properties && properties[key] == "" ==> r == []
    ensures forall k :: 0 <= k < |r| ==> NoComma(r[k])
  {
    CommaDelimitedListToStringArray(GetProperty(properties, key))
  }

  /**
   * The names collected from `resources`, in enumeration order; `None` (Java's
   * `null`) as soon as one of them cannot be read.
   */
  function CollectNames(resources: seq<Resource>, key: string): (r: Option<seq<string>>)
    ensures r.Some? ==> forall i :: 0 <= i < |resources| ==> resources[i].Parsed?
    ensures r.Some? ==> forall k :: 0 <= k < |r.value| ==> NoComma(r.value[k])
  {
    if resources == [] then Some([])
    else match resources[0]
      case Unreadable => None
      case Parsed(p) =>
        match CollectNames(resources[1..], key)
        case None => None
        case Some(tail) => Some(Contribution(p, key) + tail)
  }

  /** Both lists, concatenated, when both exist. */
  function Concat(a: Option<seq<string>>, b: Option<seq<string>>): Option<seq<string>> {
    if a.Some? && b.Some? then Some(a.value + b.value) else None
  }

  /**
   * The result of `loadFactoryNames` for the enumeration `urls` of
   * `META-INF/spring.factories` resources; `urls == None` stands for the
   * `IOException` thrown while enumerating them.
   */
  function FactoryNames(jarName: string, factoryClass: ClassRef, urls: Option<seq<Resource>>): (r: Option<seq<string>>)
    ensures r.Some? ==> urls.Some? && forall i :: 0 <= i < |urls.value| ==> urls.value[i].Parsed?
    ensures r.Some? ==> forall k :: 0 <= k < |r.value| ==> NoComma(r.value[k])
  {
    match urls
    case None => None
    case Some(resources) => CollectNames(resources, FactoryKey(jarName, factoryClass))
  }

  /** Collecting over two runs of resources concatenates their results. */
  lemma {:induction false} CollectNamesAppend(a: seq<Resource>, b: seq<Resource>, key: string)
    ensures CollectNames(a + b, key) == Concat(CollectNames(a, key), CollectNames(b, key))
    decreases |a|
  {
    if a == [] {
      assert a + b == b;
      if CollectNames(b, key).Some? {
        assert [] + CollectNames(b, key).value == CollectNames(b, key).value;
      }
    } else {
      assert (a + b)[0] == a[0];
      assert (a + b)[1..] == a[1..] + b;
      CollectNamesAppend(a[1..], b, key);
      match a[0]
      case Unreadable =>
      case Parsed(p) =>
        var ta, tb := CollectNames(a[1..], key), CollectNames(b, key);
        if ta.Some? && tb.Some? {
          assert Contribution(p, key) + (ta.value + tb.value) == (Contribution(p, key) + ta.value) + tb.value;
        }
    }
  }

  /**
   * `loadFactoryNames`: goes through the resources in enumeration order and
   * appends each one's comma-split value for `jarName + "." + className`;
   * any `IOException` discards what was collected and yields `None`.
   */
  method LoadFactoryNames(jarName: string, factoryClass: ClassRef, urls: Option<seq<Resource>>)
    returns (result: Option<seq<string>>)
    ensures result == FactoryNames(jarName, factoryClass, urls)
    ensures result.None? <==> urls.None? || exists i :: 0 <= i < |urls.value| && urls.value[i].Unreadable?
  {
    var factoryClassName := factoryClass.Name();
    if urls.None? {
      return None;
    }
    var resources := urls.value;
    var key := jarName + "." + factoryClassName;
    var names: seq<string> := [];
    var i := 0;
    while i < |resources|
      invariant 0 <= i <= |resources|
      invariant CollectNames(resources[..i], key) == Some(names)
      invariant forall j :: 0 <= j < i ==> resources[j].Parsed?
    {
      match resources[i]
      case Unreadable =>
        // the resources read so far and the rest, from the unreadable one on
        CollectNamesAppend(resources[..i], resources[i..], key);
        assert resources[..i] + resources[i..] == resources;
        assert CollectNames(resources[i..], key) == None;
        return None;
      case Parsed(properties) =>
        var factoryClassNames := GetProperty(properties, key);
        names := names + CommaDelimitedListToStringArray(factoryClassNames);
        CollectNamesAppend(resources[..i], [resources[i]], key);
        assert resources[..i + 1] == resources[..i] + [resources[i]];
        assert [resources[i]][1..] == [];
        assert CollectNames([resources[i]], key) == Some(Contribution(properties, key) + []);
        assert Contribution(properties, key) + [] == Contribution(properties, key);
        i := i + 1;
    }
    assert resources[..|resources|] == resources;
    result := Some(names);
  }

  /** The collection fails exactly when some resource cannot be read: never a partial list. */
  lemma {:induction false} CollectNamesFailsIff(resources: seq<Resource>, key: string)
    ensures CollectNames(resources, key).None? <==>
            exists i :: 0 <= i < |resources| && resources[i].Unreadable?
    decreases |resources|
  {
    if resources != [] {
      CollectNamesFailsIff(resources[1..], key);
      if exists i :: 0 <= i < |resources| && resources[i].Unreadable? {
        var i :| 0 <= i < |resources| && resources[i].Unreadable?;
        if i > 0 {
          assert resources[1..][i - 1].Unreadable?;
        }
      }
      if exists i :: 0 <= i < |resources[1..]| && resources[1..][i].Unreadable? {
        var i :| 0 <= i < |resources[1..]| && resources[1..][i].Unreadable?;
        assert resources[i + 1].Unreadable?;
      }
    }
  }

  /** A resource without the key adds nothing, and is no error. */
  lemma MissingKeyAddsNothing(before: seq<Resource>, properties: map<string, string>, after: seq<Resource>, key: string)
    requires key !in properties
    ensures CollectNames(before + [Parsed(properties)] + after, key) == CollectNames(before + after, key)
  {
    var middle := [Parsed(properties)];
    var x := CollectNames(before, key);
    assert CollectNames(middle, key) == Some([]) by {
      assert middle[1..] == [];
      assert Contribution(properties, key) == [];
      assert Contribution(properties, key) + [] == [];
    }
    assert CollectNames(before + middle, key) == x by {
      CollectNamesAppend(before, middle, key);
      if x.Some? {
        assert x.value + [] == x.value;
      }
    }
    CollectNamesAppend(before + middle, after, key);
    CollectNamesAppend(before, after, key);
  }

  /**
   * Exactly one key is looked up per resource: two enumerations that agree on
   * which resources are readable and on each one's value for `key` give the
   * same result, whatever else their properties hold.
   */
  lemma {:induction false} CollectNamesReadsOnlyKey(a: seq<Resource>, b: seq<Resource>, key: string)
    requires |a| == |b|
    requires forall j :: 0 <= j < |a| ==> a[j].Parsed? == b[j].Parsed?
    requires forall j :: 0 <= j < |a| && a[j].Parsed? && b[j].Parsed? ==>
               GetProperty(a[j].properties, key) == GetProperty(b[j].properties, key)
    ensures CollectNames(a, key) == CollectNames(b, key)
    decreases |a|
  {
    if a != [] {
      CollectNamesReadsOnlyKey(a[1..], b[1..], key);
    }
  }

  /** A single readable resource contributes its value cut at the commas, nothing trimmed. */
  lemma SingleResource(properties: map<string, string>, key: string)
    ensures CollectNames([Parsed(properties)], key) == Some(Contribution(properties, key))
    ensures key in properties && properties[key] != "" ==>
              Join(CollectNames([Parsed(properties)], key).value) == properties[key]
  {
    assert [Parsed(properties)][1..] == [];
    assert Contribution(properties, key) + [] == Contribution(properties, key);
  }

  /*************************************************************************
   * loadJarBySpi
   *************************************************************************/

  const JarUrlPrefix: string := "jar:file:/"
  const JarUrlSuffix: string := "!/"

  /** The URL string `"jar:file:/" + path + "!/"` given to the `URLClassLoader`. */
  function JarUrl(path: string): (url: string)
    ensures |url| == |JarUrlPrefix| + |path| + |JarUrlSuffix|
    ensures url[..|JarUrlPrefix|] == JarUrlPrefix
    ensures url[|JarUrlPrefix|..|url| - |JarUrlSuffix|] == path
    ensures url[|url| - |JarUrlSuffix|..] == JarUrlSuffix
  {
    JarUrlPrefix + path + JarUrlSuffix
  }

  /** The path a jar URL of this shape was built from, if it has this shape. */
  function JarUrlPath(url: string): Option<string> {
    if |url| >= |JarUrlPrefix| + |JarUrlSuffix|
       && url[..|JarUrlPrefix|] == JarUrlPrefix
       && url[|url| - |JarUrlSuffix|..] == JarUrlSuffix
    then Some(url[|JarUrlPrefix|..|url| - |JarUrlSuffix|])
    else None
  }

  /** The path is recovered verbatim from the URL. */
  lemma JarUrlRoundTrip(path: string)
    ensures JarUrlPath(JarUrl(path)) == Some(path)
  {
  }

  /** Every URL of this shape is `JarUrl` of the path between prefix and suffix. */
  lemma JarUrlPathRoundTrip(url: string)
    requires JarUrlPath(url).Some?
    ensures JarUrl(JarUrlPath(url).value) == url
  {
    var p := JarUrlPath(url).value;
    assert url == url[..|JarUrlPrefix|] + p + url[|url| - |JarUrlSuffix|..];
  }
}
