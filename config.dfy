/**
 * The site configuration (includes/config.php): the project root is derived
 * from the directory of the running script, and BASE_URL and BASE_PATH are
 * defined from it unless they already are.
 *
 * The argument `scriptDir` is dirname($_SERVER['SCRIPT_NAME']); PHP's
 * constant table is a map from names to strings.
 */
module Config {
  import opened PhpRuntime

  const BaseUrlName := "BASE_URL"
  const BasePathName := "BASE_PATH"

  /** One guarded step: remove every occurrence of `pat` when strpos finds it. */
  function StripIfPresent(s: string, pat: string): string {
    if Contains(s, pat) then ReplaceAll(s, pat, "") else s
  }

  /**
   * Backslashes to slashes, then the three guarded removals, in the order of
   * the script. Every backslash became a slash and the later steps only
   * delete, so no backslash is left.
   */
  function StrippedDir(scriptDir: string): (r: string)
    ensures '\\' !in r
  {
    var slashed := ReplaceAll(scriptDir, "\\", "/");
    ReplaceCharRemoves(scriptDir, '\\', "/");
    assert "\\" == ['\\'];
    var a := StripIfPresent(slashed, "/auth");
    StripKeepsOut(slashed, "/auth", '\\');
    var b := StripIfPresent(a, "/includes");
    StripKeepsOut(a, "/includes", '\\');
    StripKeepsOut(b, "/templates", '\\');
    StripIfPresent(b, "/templates")
  }

  /**
   * $base_path: the stripped directory with its trailing slashes removed,
   * unless it is exactly "/". Only slashes go, and only from the end.
   */
  function BasePath(scriptDir: string): (r: string)
    ensures |r| <= |StrippedDir(scriptDir)| && r == StrippedDir(scriptDir)[..|r|]
    ensures forall i :: |r| <= i < |StrippedDir(scriptDir)| ==> StrippedDir(scriptDir)[i] == '/'
    ensures '\\' !in r
    ensures StrippedDir(scriptDir) == "/" ==> r == "/"
    ensures StrippedDir(scriptDir) != "/" ==> r == [] || r[|r| - 1] != '/'
  {
    var stripped := StrippedDir(scriptDir);
    if stripped != "/" then RTrim(stripped, '/') else stripped
  }

  /**
   * The base path's contract pins it down: any prefix of the stripped
   * directory that drops only slashes, is "/" at the root and otherwise does
   * not end in a slash, is the base path.
   */
  lemma BasePathDetermined(scriptDir: string, r: string)
    requires var s := StrippedDir(scriptDir);
      && |r| <= |s| && r == s[..|r|]
      && (forall i :: |r| <= i < |s| ==> s[i] == '/')
      && (s == "/" ==> r == "/")
      && (s != "/" ==> r == [] || r[|r| - 1] != '/')
    ensures r == BasePath(scriptDir)
  {
  }

  /** The same chain with the strpos guards left out. */
  function UnguardedStrippedDir(scriptDir: string): string {
    ReplaceAll(ReplaceAll(ReplaceAll(ReplaceAll(scriptDir, "\\", "/"), "/auth", ""), "/includes", ""), "/templates", "")
  }

  lemma StripIsReplace(s: string, pat: string)
    ensures StripIfPresent(s, pat) == ReplaceAll(s, pat, "")
  {
    if !Contains(s, pat) {
      ReplaceAbsent(s, pat, "");
    }
  }

  /** The strpos guards do not change the outcome: removing absent text is a no-op anyway. */
  lemma GuardsDoNotMatter(scriptDir: string)
    ensures StrippedDir(scriptDir) == UnguardedStrippedDir(scriptDir)
  {
    var slashed := ReplaceAll(scriptDir, "\\", "/");
    StripIsReplace(slashed, "/auth");
    StripIsReplace(StripIfPresent(slashed, "/auth"), "/includes");
    StripIsReplace(StripIfPresent(StripIfPresent(slashed, "/auth"), "/includes"), "/templates");
  }

  /** A removal with an empty replacement brings in no character. */
  lemma StripKeepsOut(s: string, pat: string, c: char)
    requires c !in s
    ensures c !in StripIfPresent(s, pat)
  {
    if Contains(s, pat) && c in ReplaceAll(s, pat, "") {
      ReplaceChars(s, pat, "", c);
    }
  }

  /** The base path is exactly "/" or does not end in a slash. */
  lemma RootOrNoTrailingSlash(scriptDir: string)
    ensures var r := BasePath(scriptDir); r == "/" || r == [] || r[|r| - 1] != '/'
  {
    var stripped := StrippedDir(scriptDir);
    if stripped != "/" {
      var r := RTrim(stripped, '/');
      assert r == [] || r[|r| - 1] != '/';
      assert BasePath(scriptDir) == r;
    }
  }

  /** A directory naming none of the three folders, without a trailing slash, keeps its path (backslashes aside). */
  lemma PlainDirectoryUnchanged(scriptDir: string)
    requires var slashed := ReplaceAll(scriptDir, "\\", "/");
      && !Contains(slashed, "/auth") && !Contains(slashed, "/includes") && !Contains(slashed, "/templates")
      && (slashed == "/" || slashed == [] || slashed[|slashed| - 1] != '/')
    ensures BasePath(scriptDir) == ReplaceAll(scriptDir, "\\", "/")
  {
  }

  /** define() guarded by !defined(): a constant keeps its first value. */
  function DefineOnce(consts: map<string, string>, name: string, value: string): (r: map<string, string>)
    ensures name in r
    ensures r[name] == if name in consts then consts[name] else value
    ensures forall k :: k != name ==> (k in r <==> k in consts) && (k in r ==> r[k] == consts[k])
  {
    if name !in consts then consts[name := value] else consts
  }

  /** Loading the configuration: BASE_URL, then BASE_PATH, each from the base path. */
  function Configure(consts: map<string, string>, scriptDir: string): (r: map<string, string>)
    ensures BaseUrlName in r && BasePathName in r
    ensures BaseUrlName in consts ==> r[BaseUrlName] == consts[BaseUrlName]
    ensures BasePathName in consts ==> r[BasePathName] == consts[BasePathName]
    ensures forall k :: k != BaseUrlName && k != BasePathName ==>
      (k in r <==> k in consts) && (k in r ==> r[k] == consts[k])
  {
    var basePath := BasePath(scriptDir);
    DefineOnce(DefineOnce(consts, BaseUrlName, basePath), BasePathName, basePath)
  }

  /** On a fresh constant table both constants hold the same base path. */
  lemma BothConstantsAgree(consts: map<string, string>, scriptDir: string)
    requires BaseUrlName !in consts && BasePathName !in consts
    ensures var c := Configure(consts, scriptDir);
      BaseUrlName in c && BasePathName in c && c[BaseUrlName] == c[BasePathName] == BasePath(scriptDir)
  {
  }

  /** Loading the configuration again, from any script, changes nothing: the first definitions win. */
  lemma FirstDefinitionWins(consts: map<string, string>, firstDir: string, laterDir: string)
    ensures Configure(Configure(consts, firstDir), laterDir) == Configure(consts, firstDir)
  {
  }
}
