/** The depot_tools fetch recipe for Chromium: from the recipe properties it
    builds the gclient checkout description (one git solution named "src",
    optionally pinned to Blink tip-of-tree, with optional target operating
    systems), and it names the directory the checkout lands in. */
module ChromiumRecipe {
  import opened Wrappers

  const SrcUrl: string := "https://chromium.googlesource.com/chromium/src.git"

  /** One gclient solution. `customVars` is absent unless the recipe sets
      it. */
  datatype Solution = Solution(
    name: string,
    url: string,
    depsFile: string,
    managed: bool,
    customDeps: map<string, string>,
    safesyncUrl: string,
    customVars: Option<map<string, string>>)

  /** The gclient spec; the two target keys are absent unless set. */
  datatype GclientSpec = GclientSpec(
    solutions: seq<Solution>,
    targetOs: Option<seq<string>>,
    targetOsOnly: Option<string>)

  datatype FetchSpec = FetchSpec(kind: string, gclientGitSpec: GclientSpec)

  /** Python's `props.get(key)` being truthy: present and non-empty. */
  predicate IsSet(props: map<string, string>, key: string) {
    key in props && props[key] != ""
  }

  // ---------------------------------------------------------------------
  // Python's str.split with a one-character separator, and its inverse
  // ---------------------------------------------------------------------

  /** Splits at every `sep`; the pieces never contain `sep`, and there is
      always at least one piece (the empty string splits into [""]). */
  function Split(s: string, sep: char): (r: seq<string>)
    ensures |r| >= 1
    ensures forall i :: 0 <= i < |r| ==> sep !in r[i]
    decreases |s|
  {
    if |s| == 0 then [""]
    else
      var rest := Split(s[1..], sep);
      if s[0] == sep then [""] + rest
      else [[s[0]] + rest[0]] + rest[1..]
  }

  /** Glues pieces back together with `sep` between neighbours. */
  function Join(parts: seq<string>, sep: char): string
    requires |parts| >= 1
    decreases |parts|
  {
    if |parts| == 1 then parts[0]
    else parts[0] + [sep] + Join(parts[1..], sep)
  }

  /** Joining the pieces of a split gives back the original string. */
  lemma {:induction false} JoinSplit(s: string, sep: char)
    ensures Join(Split(s, sep), sep) == s
    decreases |s|
  {
    if |s| > 0 {
      var rest := Split(s[1..], sep);
      JoinSplit(s[1..], sep);
      if s[0] == sep {
        assert ([""] + rest)[1..] == rest;
      } else if |rest| > 1 {
        var r := [[s[0]] + rest[0]] + rest[1..];
        assert r[1..] == rest[1..];
        assert s == [s[0]] + s[1..];
      } else {
        assert s == [s[0]] + s[1..];
      }
    }
  }

  /** A join whose first piece is non-empty starts with that piece's first
      character, followed by the join with that character dropped. */
  lemma JoinNonEmptyHead(parts: seq<string>, sep: char)
    requires |parts| >= 1 && |parts[0]| > 0
    ensures |Join(parts, sep)| > 0 && Join(parts, sep)[0] == parts[0][0]
    ensures Join(parts, sep)[1..] == Join(parts[0 := parts[0][1..]], sep)
  {
    var shorter := parts[0 := parts[0][1..]];
    if |parts| > 1 {
      assert shorter[1..] == parts[1..];
    }
  }

  /** Splitting a join of separator-free pieces gives back the pieces. */
  lemma {:induction false} SplitJoin(parts: seq<string>, sep: char)
    requires |parts| >= 1
    requires forall i :: 0 <= i < |parts| ==> sep !in parts[i]
    ensures Split(Join(parts, sep), sep) == parts
    decreases |parts|, |parts[0]|
  {
    var joined := Join(parts, sep);
    if |parts[0]| > 0 {
      var head := parts[0];
      var shorter := parts[0 := head[1..]];
      assert sep !in head[1..] by {
        forall k | 0 <= k < |head[1..]| ensures head[1..][k] != sep {
          assert head[1..][k] == head[k + 1];
        }
      }
      SplitJoin(shorter, sep);
      JoinNonEmptyHead(parts, sep);
      assert joined[0] != sep;
      assert Split(joined, sep) == [[head[0]] + head[1..]] + parts[1..];
      assert [head[0]] + head[1..] == head;
      assert [head] + parts[1..] == parts;
    } else if |parts| > 1 {
      SplitJoin(parts[1..], sep);
      assert joined == [sep] + Join(parts[1..], sep);
      assert joined[1..] == Join(parts[1..], sep);
      assert [""] + parts[1..] == parts;
    }
  }

  // ---------------------------------------------------------------------
  // The recipe
  // ---------------------------------------------------------------------

  /** The checkout description for the given properties. */
  function ChromiumFetchSpec(props: map<string, string>): (r: FetchSpec)
    ensures r.kind == "gclient_git"
    ensures |r.gclientGitSpec.solutions| == 1
    ensures
      var sol := r.gclientGitSpec.solutions[0];
      && sol.name == "src" && sol.url == SrcUrl && sol.depsFile == ".DEPS.git"
      && !sol.managed && sol.customDeps == map[] && sol.safesyncUrl == ""
    ensures r.gclientGitSpec.solutions[0].customVars.Some? <==>
      "webkit_revision" in props && props["webkit_revision"] == "ToT"
    ensures r.gclientGitSpec.solutions[0].customVars.Some? ==>
      r.gclientGitSpec.solutions[0].customVars.value == map["webkit_revision" := ""]
    ensures r.gclientGitSpec.targetOs.Some? <==> IsSet(props, "target_os")
    ensures r.gclientGitSpec.targetOs.Some? ==>
      && |r.gclientGitSpec.targetOs.value| >= 1
      && Join(r.gclientGitSpec.targetOs.value, ',') == props["target_os"]
      && forall i :: 0 <= i < |r.gclientGitSpec.targetOs.value| ==> ',' !in r.gclientGitSpec.targetOs.value[i]
    ensures r.gclientGitSpec.targetOsOnly.Some? <==> IsSet(props, "target_os_only")
    ensures r.gclientGitSpec.targetOsOnly.Some? ==> r.gclientGitSpec.targetOsOnly.value == props["target_os_only"]
  {
    var webkitRevision := if "webkit_revision" in props then props["webkit_revision"] else "";
    var customVars := if webkitRevision == "ToT" then Some(map["webkit_revision" := ""]) else None;
    var solution := Solution("src", SrcUrl, ".DEPS.git", false, map[], "", customVars);
    var targetOs :=
      if IsSet(props, "target_os") then
        JoinSplit(props["target_os"], ',');
        Some(Split(props["target_os"], ','))
      else None;
    var targetOsOnly := if IsSet(props, "target_os_only") then Some(props["target_os_only"]) else None;
    FetchSpec("gclient_git", GclientSpec([solution], targetOs, targetOsOnly))
  }

  /** The directory the checkout lands in, whatever the properties. */
  function ExpectedRoot(props: map<string, string>): (r: string)
    ensures r == ChromiumFetchSpec(props).gclientGitSpec.solutions[0].name
  {
    "src"
  }

  /** The properties the spec does not read leave it unchanged. */
  lemma OnlyKnownPropertiesMatter(props: map<string, string>, key: string, value: string)
    requires key !in {"webkit_revision", "target_os", "target_os_only"}
    ensures ChromiumFetchSpec(props[key := value]) == ChromiumFetchSpec(props)
  {
  }

  /** A comma-separated target list becomes the list of its names. */
  lemma TargetOsIsSplit()
    ensures ChromiumFetchSpec(map["target_os" := "android,ios"]).gclientGitSpec.targetOs == Some(["android", "ios"])
  {
    SplitJoin(["android", "ios"], ',');
    assert Join(["android", "ios"], ',') == "android,ios";
  }
}
