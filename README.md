# LocalClassLoader of the SPI plugin demo, in Dafny

The demo client loads plugin jars from a directory. Each jar gets its own
`URLClassLoader`. `LocalClassLoader`
(`Client/src/main/java/cn/com/demo/client/loader/LocalClassLoader.java`)
holds the list-building logic behind that. This project models its three
operations:

- `loadJar(path)`: the bare names of the directory's children that end in
  `.jar`, in listing order. The result is empty when the path is not a
  directory. Modelled by `LocalClassLoader.LoadJar`, a method with a loop,
  proved against the specification function `JarNames`.
- `loadFactoryNames(jarName, factoryClass)`: for every
  `META-INF/spring.factories` resource, in enumeration order, it reads the
  property `jarName + "." + factoryClass.getName()`, cuts it at the commas and
  appends the pieces to one list. Any `IOException` gives `null`. Modelled by
  `LocalClassLoader.LoadFactoryNames`, a method with a loop, proved against
  `FactoryNames`/`CollectNames`. A Java `null` is `None`.
- `loadJarBySpi(path)`: only the URL string `"jar:file:/" + path + "!/"`,
  modelled by `LocalClassLoader.JarUrl` and its inverse `JarUrlPath`.

The comma split is Spring's `StringUtils.commaDelimitedListToStringArray`.
Spring's source is not part of this model. The module `StringUtils` restates
that routine's documented behaviour:
- `null` gives no entries;
- `""` gives no entries;
- any other string is cut at every comma, so `k` commas give `k + 1` entries;
- empty entries are kept and nothing is trimmed.

Inputs stand in for the environment:
- `new File(path)` is a `FileNode`: either `NotADirectory` (a regular file or a
  missing path) or `Directory(children)`, where each child is a
  `FileEntry(name, isDirectory)` in `listFiles()` order.
- The resource enumeration is an `Option<seq<Resource>>`. `None` means
  `getResources` threw. Each `Resource` is either its parsed properties or
  `Unreadable`, meaning `loadProperties` threw an `IOException`.

The code neither trims entries nor drops empty ones: line 54 passes the Spring
split result straight to `addAll`. `CommaDelimitedRoundTrip` and `JoinPieces`
show that spaces and empty entries survive.

The lookup key is ambiguous across jars. A dot can belong to the jar name or to
the package name (`FactoryKeyAmbiguousAcrossJars`). For a fixed jar, or for a
fixed class, the key is injective.

## Model

| member | source | states |
|---|---|---|
| `LocalClassLoader.LoadJar` | Client/src/main/java/cn/com/demo/client/loader/LocalClassLoader.java:24-36 | When the path is not a directory the result is empty. Otherwise it equals `JarNames` of the listing. Every kept name ends in ".jar" and the result is no longer than the listing. |
| `LocalClassLoader.EndsWithJar` | Client/src/main/java/cn/com/demo/client/loader/LocalClassLoader.java:30 | A name passes exactly when it is some stem followed by the case-sensitive ".jar". |
| `LocalClassLoader.JarNames` | Client/src/main/java/cn/com/demo/client/loader/LocalClassLoader.java:29-33 | Every name in the filtered listing ends with the case-sensitive suffix ".jar", and there are at most as many names as entries. |
| `LocalClassLoader.JarNamesIsFilteredSubsequence` | Client/src/main/java/cn/com/demo/client/loader/LocalClassLoader.java:29-33 | Strictly increasing positions pick out exactly the entries whose names end in ".jar", in order: nothing reordered, nothing repeated, no match missing. |
| `LocalClassLoader.JarPositionsSelect` | Client/src/main/java/cn/com/demo/client/loader/LocalClassLoader.java:29-33 | `JarPositions` gives the explicit positions behind the subsequence characterisation. |
| `LocalClassLoader.JarNamesAppend` | Client/src/main/java/cn/com/demo/client/loader/LocalClassLoader.java:29-33 | Filtering a listing in two parts gives the concatenation of the two results, which is the loop's step. |
| `LocalClassLoader.JarNamesMembership` | Client/src/main/java/cn/com/demo/client/loader/LocalClassLoader.java:29-33 | A name is kept if and only if some entry has that name and it ends in ".jar". |
| `LocalClassLoader.JarNamesIgnoresEntryKind` | Client/src/main/java/cn/com/demo/client/loader/LocalClassLoader.java:28-31 | Only names are tested. Whether an entry is a directory does not change the result, so a subdirectory named `x.jar` is kept. |
| `LocalClassLoader.JarNamesAreBare` | Client/src/main/java/cn/com/demo/client/loader/LocalClassLoader.java:30-31 | The kept strings are the entries' own `getName()` values, so they contain no '/' when the listing's names contain none. |
| `LocalClassLoader.ClassRef.Name` | Client/src/main/java/cn/com/demo/client/loader/LocalClassLoader.java:39 | `getName()` is fully qualified. It is the package name, one '.', then the simple name. A class in the unnamed package has just its simple name. |
| `LocalClassLoader.FactoryKey` | Client/src/main/java/cn/com/demo/client/loader/LocalClassLoader.java:52 | The key is the jar name, then one '.', then the fully qualified class name. |
| `LocalClassLoader.FactoryKeyInjectiveInClass` | Client/src/main/java/cn/com/demo/client/loader/LocalClassLoader.java:39 | For one jar, equal keys mean equal fully qualified class names. |
| `LocalClassLoader.FactoryKeyInjectiveInJar` | Client/src/main/java/cn/com/demo/client/loader/LocalClassLoader.java:52 | For one factory class, equal keys mean equal jar names. |
| `LocalClassLoader.FactoryKeyAmbiguousAcrossJars` | Client/src/main/java/cn/com/demo/client/loader/LocalClassLoader.java:52 | Jar "a" with class `b.C` and jar "a.b" with class `C` share one key. |
| `LocalClassLoader.GetProperty` | Client/src/main/java/cn/com/demo/client/loader/LocalClassLoader.java:52 | `getProperty` yields a value exactly when the key is present, and that value is the key's entry. |
| `LocalClassLoader.Contribution` | Client/src/main/java/cn/com/demo/client/loader/LocalClassLoader.java:52-54 | A resource without the key, or with an empty value, adds nothing. Otherwise the added names joined with commas give back the value verbatim. No added name contains a comma. |
| `LocalClassLoader.CollectNames` | Client/src/main/java/cn/com/demo/client/loader/LocalClassLoader.java:45-57 | A list comes back only when every resource was readable. No collected name contains a comma. |
| `LocalClassLoader.FactoryNames` | Client/src/main/java/cn/com/demo/client/loader/LocalClassLoader.java:41-61 | A list comes back only when the enumeration succeeded and every resource was readable, and no name in it contains a comma. |
| `LocalClassLoader.LoadFactoryNames` | Client/src/main/java/cn/com/demo/client/loader/LocalClassLoader.java:38-62 | The result equals `FactoryNames` for the enumeration. It is `None` (`null`) exactly when the enumeration failed or some resource is unreadable. |
| `LocalClassLoader.CollectNamesAppend` | Client/src/main/java/cn/com/demo/client/loader/LocalClassLoader.java:45-57 | The result over two runs of resources is the concatenation, in enumeration order, of the two results. It is a failure if either run fails. |
| `LocalClassLoader.SingleResource` | Client/src/main/java/cn/com/demo/client/loader/LocalClassLoader.java:50-54 | One readable resource contributes its value cut at the commas. Joining that contribution gives back the value verbatim. |
| `LocalClassLoader.CollectNamesFailsIff` | Client/src/main/java/cn/com/demo/client/loader/LocalClassLoader.java:41-61 | The collection fails if and only if some resource cannot be read. There is never a partial list. |
| `LocalClassLoader.MissingKeyAddsNothing` | Client/src/main/java/cn/com/demo/client/loader/LocalClassLoader.java:52-54 | A readable resource without the key adds nothing anywhere in the enumeration, and it is not an error. |
| `LocalClassLoader.CollectNamesReadsOnlyKey` | Client/src/main/java/cn/com/demo/client/loader/LocalClassLoader.java:52 | Only the one key is looked up. Enumerations that agree on readability and on that key's values give the same result. |
| `StringUtils.Pieces` | Client/src/main/java/cn/com/demo/client/loader/LocalClassLoader.java:54 | Cutting at the commas always yields at least one piece. |
| `StringUtils.CommaDelimitedListToStringArray` | Client/src/main/java/cn/com/demo/client/loader/LocalClassLoader.java:54 | `null` and `""` give no entries. Any other value is given back exactly by joining the entries with commas, and no entry contains a comma. |
| `StringUtils.JoinPieces` | Client/src/main/java/cn/com/demo/client/loader/LocalClassLoader.java:54 | Joining the pieces with commas restores the string: nothing is trimmed or dropped. |
| `StringUtils.PiecesHaveNoComma` | Client/src/main/java/cn/com/demo/client/loader/LocalClassLoader.java:54 | The string is cut at every comma. |
| `StringUtils.PiecesOfNoComma` | Client/src/main/java/cn/com/demo/client/loader/LocalClassLoader.java:54 | A value without commas is a single entry. |
| `StringUtils.PiecesAfterFirstComma` | Client/src/main/java/cn/com/demo/client/loader/LocalClassLoader.java:54 | The text before the first comma is the first entry. |
| `StringUtils.PiecesJoin` | Client/src/main/java/cn/com/demo/client/loader/LocalClassLoader.java:54 | Comma-free parts joined with commas cut back into the same parts, empty parts included. |
| `StringUtils.PiecesCount` | Client/src/main/java/cn/com/demo/client/loader/LocalClassLoader.java:54 | A string with `k` commas gives `k + 1` pieces. |
| `StringUtils.CommaDelimitedRoundTrip` | Client/src/main/java/cn/com/demo/client/loader/LocalClassLoader.java:54 | Any non-empty list of comma-free names, other than the single empty name, survives joining and splitting unchanged. |
| `StringUtils.CommaDelimitedCount` | Client/src/main/java/cn/com/demo/client/loader/LocalClassLoader.java:54 | A non-empty value gives one more entry than it has commas. |
| `LocalClassLoader.JarUrl` | Client/src/main/java/cn/com/demo/client/loader/LocalClassLoader.java:64-65 | The URL is "jar:file:/", then the path verbatim, then "!/". |
| `LocalClassLoader.JarUrlRoundTrip` | Client/src/main/java/cn/com/demo/client/loader/LocalClassLoader.java:65 | Stripping the prefix and suffix from the URL gives back exactly the path. |
| `LocalClassLoader.JarUrlPathRoundTrip` | Client/src/main/java/cn/com/demo/client/loader/LocalClassLoader.java:65 | Every string with that prefix and suffix is the URL built from the text between them. |

## Left out

- Filesystem access (`File.isDirectory`, `listFiles`, lines 26-28) is an input. The `null` that `listFiles()` returns on an I/O error, which makes the loop throw a `NullPointerException`, is not modelled: a directory always has a listing.
- Resource discovery (`getResources` or `getSystemResources`, lines 40-44) and `.properties` parsing (`PropertiesLoaderUtils.loadProperties`, line 50) are inputs. Resources are already-parsed maps, and an `IOException` is `None` or `Unreadable`. The choice between the class's own loader and the system loader is not modelled.
- `Class.getName()` is modelled for top-level classes only, as the package name, a dot and the simple name. Nested classes (`$`) and arrays are not modelled.
- The `printStackTrace` on `IOException` (line 59) is output and is not modelled.
- `URLClassLoader` construction and class-loading isolation (line 66) are JVM behaviour and are not modelled. So is the `MalformedURLException` of `new URL` (line 65). The JDK's parsing of the jar URL is not modelled either, including what happens when the path itself contains "!/".
- `SpiClient.java` and `TestClient.java` are `main` drivers that use `ServiceLoader` reflection and print. They are not part of this model.
- Arguments are never null in the model, and unchecked exceptions are not modelled. In the source:
  - a null `path` makes `loadJar` throw a `NullPointerException` at line 26;
  - a null `factoryClass` makes `loadFactoryNames` throw one at line 39, outside the `try`;
  - a null `jarName` makes the key `"null." + className` at line 52;
  - a null `path` makes `loadJarBySpi` build `"jar:file:/null!/"` at line 65;
  - an `IllegalArgumentException` from `loadProperties` on a malformed `\uXXXX` escape (line 50) is not caught at line 58 and escapes `loadFactoryNames` instead of giving `null`.
