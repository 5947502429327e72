/** Image names: the parser, the printing in `GetMatches`, and when each undoes the other. */
module ImageName {
  import opened Wrappers
  import opened Text

  datatype Image = Image(registry: string, repo: string, tag: string)

  function RepoOf(s: string): string {
    if LastIndexOf(s, ':') == -1 then s else s[..LastIndexOf(s, ':')]
  }

  function TagOf(s: string): string {
    if LastIndexOf(s, ':') == -1 then "latest" else s[LastIndexOf(s, ':') + 1..]
  }

  function Parse(imageName: string): Image {
    var parts := Split(imageName, '/');
    var s := Join(if |parts| == 1 then parts else parts[1..], '/');
    Image(if |parts| == 1 then "docker.io" else parts[0], RepoOf(s), TagOf(s))
  }

  method ParseImageName(imageName: string) returns (image: Image)
    ensures image == Parse(imageName)
  {
    var registry, repo, tag;
    var parts := Split(imageName, '/');
    if |parts| == 1 {
      registry := "docker.io";
    } else {
      registry := parts[0];
      parts := parts[1..];
    }
    repo := Join(parts, '/');
    var idx := LastIndexOf(repo, ':');
    if idx != -1 {
      tag := repo[idx + 1..];
      repo := repo[..idx];
    } else {
      tag := "latest";
    }
    return Image(registry, repo, tag);
  }

  /** The name `GetMatches` prints. */
  function Print(i: Image): string {
    i.registry + "/" + i.repo + ":" + i.tag
  }

  /** What is parsed from a name without a slash, and from one whose first slash is at `n`. */
  lemma ParseAtSlash(name: string)
    ensures var n := IndexOf(name, '/');
            Parse(name) == if n == |name| then Image("docker.io", RepoOf(name), TagOf(name))
                           else Image(name[..n], RepoOf(name[n + 1..]), TagOf(name[n + 1..]))
  {
    hide IndexOf, LastIndexOf, Join, Split, RepoOf, TagOf;
    var n := IndexOf(name, '/');
    SplitAtSlash(name);
    if n < |name| {
      var rest := name[n + 1..];
      JoinSplit(rest, '/');
      assert Split(name, '/')[1..] == Split(rest, '/');
    } else {
      JoinSplit(name, '/');
    }
  }

  lemma SplitAtSlash(name: string)
    ensures var n := IndexOf(name, '/');
            Split(name, '/') == if n == |name| then [name] else [name[..n]] + Split(name[n + 1..], '/')
  {
    hide IndexOf;
  }

  lemma CutAtSlash(name: string)
    ensures var n := IndexOf(name, '/');
            if n == |name| then '/' !in name else name == name[..n] + "/" + name[n + 1..]
  {
    hide IndexOf;
    var n := IndexOf(name, '/');
    IndexOfFirst(name, '/');
    if n < |name| {
      CutAt(name, n);
    } else {
      assert forall i | 0 <= i < |name| :: name[i] != '/';
    }
  }

  lemma CutAt(s: string, n: nat)
    requires n < |s| && s[n] == '/'
    ensures s == s[..n] + "/" + s[n + 1..]
  {
    assert [s[n]] == "/";
    assert s == s[..n] + [s[n]] + s[n + 1..];
  }

  lemma SameAfterSlash(a: string, x: string, y: string)
    ensures a + "/" + x == a + "/" + y <==> x == y
  {
    assert (a + "/" + x)[|a| + 1..] == x && (a + "/" + y)[|a| + 1..] == y;
  }

  lemma PrintHasSlash(i: Image)
    ensures '/' in Print(i) && Print(i) == i.registry + "/" + (i.repo + ":" + i.tag)
  {
    assert Print(i) == i.registry + "/" + (i.repo + ":" + i.tag);
    assert Print(i)[|i.registry|] == '/';
  }

  lemma TagHasNoColon(s: string)
    ensures ':' !in TagOf(s)
  {
    hide LastIndexOf;
    LastIndexOfLast(s, ':');
    var c := LastIndexOf(s, ':');
    if c != -1 {
      var t := s[c + 1..];
      forall k | 0 <= k < |t| ensures t[k] != ':' {
        assert t[k] == s[c + 1 + k];
      }
    } else {
      assert TagOf(s) == "latest";
    }
  }

  lemma RepoAndTag(repo: string, tag: string)
    requires ':' !in tag
    ensures RepoOf(repo + ":" + tag) == repo && TagOf(repo + ":" + tag) == tag
  {
    hide LastIndexOf;
    LastIndexOfAppend(repo, ':', tag);
    var s := repo + ":" + tag;
    assert s[..|repo|] == repo && s[|repo| + 1..] == tag;
  }

  lemma RepoTagJoined(s: string)
    ensures RepoOf(s) + ":" + TagOf(s) == s <==> ':' in s
  {
    hide LastIndexOf;
    LastIndexOfLast(s, ':');
    var c := LastIndexOf(s, ':');
    if c != -1 {
      assert s == s[..c] + ":" + s[c + 1..];
    } else {
      assert |RepoOf(s) + ":" + TagOf(s)| > |s|;
    }
  }

  lemma PrintedRest(registry: string, rest: string)
    requires '/' !in registry
    ensures var name := registry + "/" + rest;
            IndexOf(name, '/') == |registry| < |name| && name[..|registry|] == registry && name[|registry| + 1..] == rest
  {
    hide IndexOf;
    IndexOfAppend(registry, '/', rest);
  }

  /** The registry parsed from a name with a slash has none. */
  lemma RegistryHasNoSlash(name: string)
    requires '/' in name
    ensures var n := IndexOf(name, '/'); n < |name| && name[n] == '/' && '/' !in name[..n]
  {
    hide IndexOf;
    IndexOfFirst(name, '/');
  }

  /** Parsing a printed name gives the parts back exactly when the registry has no slash and the tag no
      colon: the registry may have a port, the repo any number of segments. */
  lemma ParsePrintExactly(i: Image)
    ensures Parse(Print(i)) == i <==> '/' !in i.registry && ':' !in i.tag
  {
    hide Parse, IndexOf, LastIndexOf, RepoOf, TagOf;
    var name, rest := Print(i), i.repo + ":" + i.tag;
    assert name == i.registry + "/" + rest;
    assert name[|i.registry|] == '/';
    var n := IndexOf(name, '/');
    ParseAtSlash(name);
    RegistryHasNoSlash(name);
    TagHasNoColon(name[n + 1..]);
    if '/' !in i.registry && ':' !in i.tag {
      PrintedRest(i.registry, rest);
      RepoAndTag(i.repo, i.tag);
    }
  }

  /** Printing a parsed name gives the name back exactly when it has a slash, and a colon after its
      first slash. */
  lemma PrintParseExactly(name: string)
    ensures var n := IndexOf(name, '/');
            Print(Parse(name)) == name <==> n < |name| && ':' in name[n + 1..]
  {
    hide Parse, Print, IndexOf, LastIndexOf, RepoOf, TagOf;
    var n := IndexOf(name, '/');
    ParseAtSlash(name);
    PrintHasSlash(Parse(name));
    CutAtSlash(name);
    if n < |name| {
      var rest := name[n + 1..];
      RepoTagJoined(rest);
      SameAfterSlash(name[..n], RepoOf(rest) + ":" + TagOf(rest), rest);
    }
  }

  /** What is left out is filled in: without a slash the registry is docker.io, without a colon in the rest the
      tag is latest. */
  lemma DefaultsFilledIn(registry: string, repo: string, tag: string)
    requires '/' !in registry
    ensures ':' !in repo ==> Parse(registry + "/" + repo) == Image(registry, repo, "latest")
    ensures ':' !in repo && '/' !in repo ==> Parse(repo) == Image("docker.io", repo, "latest")
    ensures ':' !in tag && '/' !in repo + ":" + tag ==> Parse(repo + ":" + tag) == Image("docker.io", repo, tag)
  {
    hide Parse, IndexOf, LastIndexOf, RepoOf, TagOf;
    PrintedRest(registry, repo);
    ParseAtSlash(registry + "/" + repo);
    NoSlash(repo);
    ParseAtSlash(repo);
    NoSlash(repo + ":" + tag);
    ParseAtSlash(repo + ":" + tag);
    NoColon(repo);
    if ':' !in tag {
      RepoAndTag(repo, tag);
    }
  }

  lemma NoSlash(name: string)
    ensures '/' !in name ==> IndexOf(name, '/') == |name|
  {
    hide IndexOf;
    if '/' !in name {
      IndexOfAppend(name, '/', "");
    }
  }

  lemma NoColon(s: string)
    ensures ':' !in s ==> RepoOf(s) == s && TagOf(s) == "latest"
  {
    hide LastIndexOf;
    LastIndexOfLast(s, ':');
    assert LastIndexOf(s, ':') >= 0 ==> s[LastIndexOf(s, ':')] in s;
  }

  datatype MatchError = NoCredentials(registry: string) | BadCredentials(registry: string)

  /** `GetMatches`, given what each registry query answered: the repos that have the tag, each with its
      printed name. A query that fails is passed over. `auths` says of each configured registry whether its
      credentials decode. */
  method GetMatches(auths: map<string, bool>, registry: string, tag: string, repos: seq<string>,
                    answers: seq<Result<bool, string>>)
    returns (r: Result<map<string, string>, MatchError>)
    requires |answers| == |repos|
    ensures r == Failure(NoCredentials(registry)) <==> registry !in auths
    ensures r == Failure(BadCredentials(registry)) <==> registry in auths && !auths[registry]
    ensures r.Success? <==> registry in auths && auths[registry]
    ensures r.Success? ==> forall n :: n in r.value <==> exists i | 0 <= i < |repos| :: repos[i] == n && answers[i] == Success(true)
    ensures r.Success? ==> forall n | n in r.value :: r.value[n] == Print(Image(registry, n, tag))
    ensures r.Success? && '/' !in registry && ':' !in tag ==>
              forall n | n in r.value :: Parse(r.value[n]) == Image(registry, n, tag)
  {
    hide Parse, Print;
    if registry !in auths {
      return Failure(NoCredentials(registry));
    }
    if !auths[registry] {
      return Failure(BadCredentials(registry));
    }
    var matches: map<string, string> := map[];
    for i := 0 to |repos|
      invariant forall n :: n in matches <==> exists j | 0 <= j < i :: repos[j] == n && answers[j] == Success(true)
      invariant forall n | n in matches :: matches[n] == Print(Image(registry, n, tag))
    {
      if answers[i].Failure? {
        continue;
      }
      if answers[i].value {
        matches := matches[repos[i] := Print(Image(registry, repos[i], tag))];
      }
    }
    forall n | n in matches ensures '/' !in registry && ':' !in tag ==> Parse(matches[n]) == Image(registry, n, tag) {
      ParsePrintExactly(Image(registry, n, tag));
    }
    return Success(matches);
  }
}
