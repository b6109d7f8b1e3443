/**
 * Requirement reconciliation (`smart_install_requirements` in install_env.py):
 * which lines of the requirements file are requirements, the bare package
 * name of each, which requirements are queued because their name is not
 * found in the `pip freeze` listing, and the one combined install command.
 *
 * The heuristics of the installer are kept as they are: a name counts as
 * installed when it occurs anywhere in the listing, the comment test looks
 * at the unstripped line, and the version operators are split off in a
 * fixed order.
 */
module Requirements {
  import opened Text
  import opened Seqs

  const PIP_EXE := ".venv\\Scripts\\pip.exe"
  const INSTALL_FLAGS := ["install", "--upgrade", "--no-cache-dir"]

  // ---------------------------------------------------------------------------
  // Reading the requirements file
  // ---------------------------------------------------------------------------

  /** A raw line is a requirement when it is not blank and does not itself start with '#'. */
  predicate IsKept(line: string) {
    Strip(line) != [] && !StartsWith(line, "#")
  }

  /** `[line.strip() for line in lines if line.strip() and not line.startswith("#")]`. */
  function ParseRequirements(lines: seq<string>): seq<string> {
    Map(Filter(lines, IsKept), Strip)
  }

  /** Parsing goes line by line: the requirements of two runs of lines are those of each, in order. */
  lemma ParseAppend(a: seq<string>, b: seq<string>)
    ensures ParseRequirements(a + b) == ParseRequirements(a) + ParseRequirements(b)
  {
    FilterAppend(a, b, IsKept);
    MapAppend(Filter(a, IsKept), Filter(b, IsKept), Strip);
  }

  /** One line gives its stripped text when kept and nothing otherwise. */
  lemma ParseOne(line: string)
    ensures ParseRequirements([line]) == if IsKept(line) then [Strip(line)] else []
  {
    FilterOne(line, IsKept);
  }

  /** A string is a requirement exactly when it is the stripped form of some kept line. */
  lemma ParseMembers(lines: seq<string>, r: string)
    ensures r in ParseRequirements(lines) <==>
      exists j :: 0 <= j < |lines| && IsKept(lines[j]) && Strip(lines[j]) == r
  {
    if r in ParseRequirements(lines) {
      ParsedFromLine(lines, r);
    }
    forall j | 0 <= j < |lines| && IsKept(lines[j]) && Strip(lines[j]) == r
      ensures r in ParseRequirements(lines)
    {
      LineParsed(lines, j);
    }
  }

  lemma ParsedFromLine(lines: seq<string>, r: string)
    requires r in ParseRequirements(lines)
    ensures exists j :: 0 <= j < |lines| && IsKept(lines[j]) && Strip(lines[j]) == r
  {
    var kept := Filter(lines, IsKept);
    var k :| 0 <= k < |kept| && Strip(kept[k]) == r;
    FilterMembers(lines, IsKept, kept[k]);
    var j :| 0 <= j < |lines| && lines[j] == kept[k];
    assert IsKept(lines[j]) && Strip(lines[j]) == r;
  }

  lemma LineParsed(lines: seq<string>, j: nat)
    requires j < |lines| && IsKept(lines[j])
    ensures Strip(lines[j]) in ParseRequirements(lines)
  {
    var kept := Filter(lines, IsKept);
    FilterMembers(lines, IsKept, lines[j]);
    var k :| 0 <= k < |kept| && kept[k] == lines[j];
    assert ParseRequirements(lines)[k] == Strip(lines[j]);
  }

  /** Every requirement is non-empty and already stripped. */
  lemma ParseStripped(lines: seq<string>)
    ensures forall r :: r in ParseRequirements(lines) ==> r != [] && Strip(r) == r
  {
    forall r | r in ParseRequirements(lines) ensures r != [] && Strip(r) == r {
      ParseMembers(lines, r);
      var j :| 0 <= j < |lines| && IsKept(lines[j]) && Strip(lines[j]) == r;
      StripIdempotent(lines[j]);
    }
  }

  /**
   * The comment test is made on the raw line: a comment indented by
   * whitespace survives as a requirement that starts with '#'.
   */
  lemma IndentedCommentKept(w: string, t: string)
    requires w != [] && AllSpace(w)
    ensures var line := w + "#" + t;
      && ParseRequirements([line]) == [Strip(line)]
      && Strip(line) != [] && Strip(line)[0] == '#'
  {
    var line := w + "#" + t;
    assert line[..|w|] == w;
    assert line[|w|] == '#';
    TrimLeftIs(line, |w|);
    StripSlice(line);
    assert !AllSpace(line);
    assert line[0] == w[0];
    assert !StartsWith(line, "#");
    ParseOne(line);
  }

  /** Lines that start with '#' and lines that are blank or whitespace only give no requirement. */
  lemma CommentAndBlankLinesDropped(lines: seq<string>)
    requires forall k :: 0 <= k < |lines| ==> StartsWith(lines[k], "#") || AllSpace(lines[k])
    ensures ParseRequirements(lines) == []
  {
    FilterNone(lines, IsKept);
  }

  // ---------------------------------------------------------------------------
  // The bare package name
  // ---------------------------------------------------------------------------

  /** The three splits in a row, each keeping the text before the first occurrence of its operator. */
  function SplitChain(s: string): string {
    Before(Before(Before(s, "=="), ">="), "~=")
  }

  /** The bare package name of a requirement: the split chain, stripped. */
  function BareName(req: string): string {
    Strip(SplitChain(req))
  }

  /** `BareName` is `req.split("==")[0].split(">=")[0].split("~=")[0].strip()`. */
  lemma BareNameIsSplitExpression(req: string)
    ensures BareName(req) == Strip(Split(Split(Split(req, "==")[0], ">=")[0], "~=")[0])
  {
    SplitHead(req, "==");
    SplitHead(Before(req, "=="), ">=");
    SplitHead(Before(Before(req, "=="), ">="), "~=");
  }

  /** One of the three version operators the installer splits on begins at `i`. */
  predicate OperatorAt(s: string, i: int) {
    OccursAt(s, "==", i) || OccursAt(s, ">=", i) || OccursAt(s, "~=", i)
  }

  function MinOpt(a: Option<nat>, b: Option<nat>): Option<nat> {
    match (a, b)
    case (None, _) => b
    case (_, None) => a
    case (Some(x), Some(y)) => Some(if x <= y then x else y)
  }

  /** Where the earliest of the three operators begins, if any does. */
  function EarliestOperator(s: string): (k: Option<nat>)
    ensures k.Some? ==> OperatorAt(s, k.value)
    ensures k.Some? ==> forall j :: 0 <= j < k.value ==> !OperatorAt(s, j)
    ensures k.None? ==> forall j :: !OperatorAt(s, j)
  {
    MinOpt(MinOpt(Find(s, "=="), Find(s, ">=")), Find(s, "~="))
  }

  /** The name as "the text before the first version operator", stripped: the reading the chained split is compared with. */
  function NameBeforeFirstOperator(req: string): string {
    match EarliestOperator(req)
    case None => Strip(req)
    case Some(k) => Strip(req[..k])
  }

  /** The first operator is a `>=` or `~=` whose `=` also begins an `==`, as in `a>==1`. */
  predicate OverlapsEquals(s: string, k: int) {
    !OccursAt(s, "==", k) && OccursAt(s, "==", k + 1)
  }

  /** No operator begins before `k`, so no single operator does either. */
  lemma NoOperatorBefore(s: string, k: int)
    requires forall j :: 0 <= j < k ==> !OperatorAt(s, j)
    ensures NoneBefore(s, "==", k) && NoneBefore(s, ">=", k) && NoneBefore(s, "~=", k)
  {
    forall j | 0 <= j < k ensures !OccursAt(s, "==", j) && !OccursAt(s, ">=", j) && !OccursAt(s, "~=", j) {
      assert !OperatorAt(s, j);
    }
  }

  /** The first `==` starts `d` places after the first operator (d is 0 or 1): everything from it on is dropped. */
  lemma ChainAtEquals(s: string, k: nat, d: nat)
    requires d <= 1 && k + 2 <= |s|
    requires forall j :: 0 <= j < k ==> !OperatorAt(s, j)
    requires OccursAt(s, "==", k + d) && NoneBefore(s, "==", k + d)
    ensures SplitChain(s) == s[..k + d]
  {
    NoOperatorBefore(s, k);
    BeforeIs(s, "==", k + d);
    var a := s[..k + d];
    PrefixClear(s, ">=", k + d);
    BeforeIs(a, ">=", |a|);
    PrefixClear(s, "~=", k + d);
    BeforeIs(a, "~=", |a|);
  }

  /** The first operator is `>=`, no `==` begins before `k + 2`: the `>=` split stops at k. */
  lemma ChainAtGreater(s: string, k: nat)
    requires k + 2 <= |s|
    requires forall j :: 0 <= j < k ==> !OperatorAt(s, j)
    requires OccursAt(s, ">=", k)
    requires NoneBefore(s, "==", k + 2)
    ensures SplitChain(s) == s[..k]
  {
    NoOperatorBefore(s, k);
    var a := Before(s, "==");
    assert |a| >= k + 2;
    PrefixNoneBefore(s, ">=", |a|, k);
    OccursInPrefixAt(s, ">=", |a|, k);
    BeforeIs(a, ">=", k);
    assert a[..k] == s[..k];
    PrefixClear(s, "~=", k);
    BeforeIs(s[..k], "~=", k);
  }

  /** The first operator is `~=`, no `==` begins before `k + 2`: neither `==` nor `>=` cuts into it, so the `~=` split stops at k. */
  lemma ChainAtTilde(s: string, k: nat)
    requires k + 2 <= |s|
    requires forall j :: 0 <= j < k ==> !OperatorAt(s, j)
    requires OccursAt(s, "~=", k)
    requires NoneBefore(s, "==", k + 2)
    ensures SplitChain(s) == s[..k]
  {
    NoOperatorBefore(s, k);
    var a := Before(s, "==");
    assert |a| >= k + 2;
    assert s[k] == '~' && s[k + 1] == '=' by {
      assert s[k..k + 2] == "~=";
    }
    forall j | k <= j < k + 2 ensures !OccursAt(s, ">=", j) {
      if j + 2 <= |s| {
        assert s[j..j + 2][0] == s[j];
      }
    }
    PrefixNoneBefore(s, ">=", |a|, k + 2);
    var b := Before(a, ">=");
    assert |b| >= k + 2;
    assert b == s[..|b|];
    OccursInPrefixAt(s, "~=", |b|, k);
    PrefixNoneBefore(s, "~=", |b|, k);
    BeforeIs(b, "~=", k);
  }

  /**
   * Where the chained split cuts `req`: before the first operator, except
   * when that operator is a `>=` or `~=` followed by `=`, where the `==`
   * split is taken first and the cut falls one character later.
   */
  function CutPoint(req: string): nat {
    match EarliestOperator(req)
    case None => |req|
    case Some(k) => if OverlapsEquals(req, k) then k + 1 else k
  }

  /** The three splits in a row keep exactly the text before the cut point. */
  lemma SplitChainIsPrefix(req: string)
    ensures CutPoint(req) <= |req|
    ensures SplitChain(req) == req[..CutPoint(req)]
  {
    var e := EarliestOperator(req);
    if e.None? {
      ChainWithoutOperator(req);
    } else {
      ChainAtOperator(req, e.value);
    }
  }

  /** With no operator, no split cuts anything. */
  lemma ChainWithoutOperator(req: string)
    requires forall j :: !OperatorAt(req, j)
    ensures SplitChain(req) == req
  {
    NoOperatorBefore(req, |req|);
    BeforeIs(req, "==", |req|);
    BeforeIs(req, ">=", |req|);
    BeforeIs(req, "~=", |req|);
  }

  /** The split chain cuts at the first operator, or one later when that operator overlaps an `==`. */
  lemma ChainAtOperator(req: string, k: nat)
    requires OperatorAt(req, k)
    requires forall j :: 0 <= j < k ==> !OperatorAt(req, j)
    ensures k + 2 <= |req|
    ensures SplitChain(req) == req[..if OverlapsEquals(req, k) then k + 1 else k]
  {
    NoOperatorBefore(req, k);
    if OccursAt(req, "==", k) {
      ChainAtEquals(req, k, 0);
    } else if OccursAt(req, "==", k + 1) {
      ChainAtEquals(req, k, 1);
    } else {
      assert NoneBefore(req, "==", k + 2);
      if OccursAt(req, ">=", k) {
        ChainAtGreater(req, k);
      } else {
        ChainAtTilde(req, k);
      }
    }
  }

  /**
   * The bare name is the stripped text before the cut point: before the first
   * operator, or one character later for `>==` and `~==`.
   */
  lemma BareNameByEarliestOperator(req: string)
    ensures CutPoint(req) <= |req|
    ensures BareName(req) == Strip(req[..CutPoint(req)])
  {
    SplitChainIsPrefix(req);
  }

  /** With no overlapping operators, the bare name is exactly the text before the first operator. */
  lemma BareNameIsTextBeforeOperator(req: string)
    requires EarliestOperator(req).Some? ==> !OverlapsEquals(req, EarliestOperator(req).value)
    ensures BareName(req) == NameBeforeFirstOperator(req)
  {
    BareNameByEarliestOperator(req);
  }

  /** A requirement with none of the three operators is its own bare name, stripped; `<=` and `!=` are not split off. */
  lemma BareNameWithoutOperator(req: string)
    requires forall j :: !OperatorAt(req, j)
    ensures BareName(req) == Strip(req)
  {
    BareNameByEarliestOperator(req);
  }

  /** In `name>==rest` the first operator is the `>=` at the end of the name, and it overlaps an `==`. */
  lemma OverlapFacts(name: string, rest: string, s: string)
    requires forall i :: 0 <= i < |name| ==> name[i] != '='
    requires s == name + ">==" + rest
    ensures EarliestOperator(s) == Some(|name|)
    ensures OverlapsEquals(s, |name|)
    ensures CutPoint(s) == |name| + 1
  {
    var k := |name|;
    assert s[k..k + 3] == ">==";
    assert s[k..k + 2] == s[k..k + 3][..2];
    assert s[k + 1..k + 3] == s[k..k + 3][1..];
    assert OperatorAt(s, k);
    assert !OccursAt(s, "==", k) by {
      assert s[k..k + 2][0] == s[k];
    }
    forall j | 0 <= j < k ensures !OperatorAt(s, j) {
      assert s[j + 1] != '=';
      assert s[j..j + 2][1] == s[j + 1];
    }
    var e := EarliestOperator(s);
    assert e.Some?;
    assert e.value == k;
  }

  /**
   * The chained split and "the text before the first operator" part ways on
   * `name>==rest` (such as `a>==1`): the `==` split runs first and leaves the
   * `>` on the name.
   */
  lemma OverlapKeepsOperatorChar(name: string, rest: string, s: string)
    requires forall i :: 0 <= i < |name| ==> name[i] != '='
    requires s == name + ">==" + rest
    ensures SplitChain(s) == name + ">"
    ensures BareName(s) == Strip(name + ">")
    ensures NameBeforeFirstOperator(s) == Strip(name)
  {
    OverlapFacts(name, rest, s);
    SplitChainIsPrefix(s);
    var k := |name|;
    assert s[..k + 1] == name + ">";
    assert s[..k] == name;
  }

  /** The bare name is a substring of its requirement. */
  lemma BareNameInRequirement(req: string)
    ensures Contains(req, BareName(req))
  {
    BareNameByEarliestOperator(req);
    var t := req[..CutPoint(req)];
    StripInside(t);
    var i :| OccursAt(t, Strip(t), i);
    OccursInPrefix(req, Strip(t), CutPoint(req), i);
  }

  // ---------------------------------------------------------------------------
  // Reconciliation against the freeze listing
  // ---------------------------------------------------------------------------

  /** A requirement is queued when its lower-cased bare name does not occur anywhere in the lower-cased listing. */
  predicate NeedsInstall(req: string, installed: string) {
    !Contains(Lower(installed), Lower(BareName(req)))
  }

  /** A requirement whose bare name is empty is always taken as installed. */
  lemma EmptyNameNeverQueued(req: string, installed: string)
    requires BareName(req) == []
    ensures !NeedsInstall(req, installed)
  {
    assert OccursAt(Lower(installed), Lower(BareName(req)), 0);
  }

  /** A requirement whose text appears in the listing, ignoring ASCII case, is never queued. */
  lemma ListedRequirementNotQueued(req: string, installed: string)
    requires Contains(Lower(installed), Lower(req))
    ensures !NeedsInstall(req, installed)
  {
    BareNameInRequirement(req);
    var i :| OccursAt(req, BareName(req), i);
    LowerKeepsOccurrence(req, BareName(req), i);
    ContainsTransitive(Lower(installed), Lower(req), Lower(BareName(req)));
  }

  /** A longer listing never queues more: what is queued against `more` is queued against any part of it. */
  lemma NeedsInstallAntitone(req: string, installed: string, more: string)
    requires Contains(more, installed)
    requires NeedsInstall(req, more)
    ensures NeedsInstall(req, installed)
  {
    var i :| OccursAt(more, installed, i);
    LowerKeepsOccurrence(more, installed, i);
    if Contains(Lower(installed), Lower(BareName(req))) {
      ContainsTransitive(Lower(more), Lower(installed), Lower(BareName(req)));
    }
  }

  /**
   * Substring matching: a requirement whose text occurs inside a name that is
   * listed is never queued, as `torch` is not when only `torchvision` is.
   */
  lemma ContainedNameNotQueued(req: string, listedName: string, installed: string)
    requires Contains(Lower(installed), Lower(listedName))
    requires Contains(listedName, req)
    ensures !NeedsInstall(req, installed)
  {
    var i :| OccursAt(listedName, req, i);
    LowerKeepsOccurrence(listedName, req, i);
    ContainsTransitive(Lower(installed), Lower(listedName), Lower(req));
    ListedRequirementNotQueued(req, installed);
  }

  function NeedsInstallIn(installed: string): string -> bool {
    req => NeedsInstall(req, installed)
  }

  /** The requirements queued for installation, in order, duplicates kept, as full requirement text. */
  function Missing(reqs: seq<string>, installed: string): seq<string> {
    Filter(reqs, NeedsInstallIn(installed))
  }

  lemma MissingAppend(a: seq<string>, b: seq<string>, installed: string)
    ensures Missing(a + b, installed) == Missing(a, installed) + Missing(b, installed)
  {
    FilterAppend(a, b, NeedsInstallIn(installed));
  }

  /** Each requirement is queued as often as it is listed when its name is missing, and never otherwise. */
  lemma MissingCount(reqs: seq<string>, installed: string, r: string)
    ensures multiset(Missing(reqs, installed))[r] ==
      if NeedsInstall(r, installed) then multiset(reqs)[r] else 0
  {
    FilterCount(reqs, NeedsInstallIn(installed), r);
  }

  /** A requirement is queued exactly when it is listed and its name is missing. */
  lemma MissingMembers(reqs: seq<string>, installed: string, r: string)
    ensures r in Missing(reqs, installed) <==> r in reqs && NeedsInstall(r, installed)
  {
    FilterMembers(reqs, NeedsInstallIn(installed), r);
  }

  /** The queue keeps the order of the requirements file. */
  lemma MissingIsSubsequence(reqs: seq<string>, installed: string)
    ensures IsSubsequence(Missing(reqs, installed), reqs)
  {
    FilterIsSubsequence(reqs, NeedsInstallIn(installed));
  }

  /** Once the listing holds every requirement's text, reconciling again queues nothing. */
  lemma MissingNoneWhenAllListed(reqs: seq<string>, installed: string)
    requires forall k :: 0 <= k < |reqs| ==> Contains(Lower(installed), Lower(reqs[k]))
    ensures Missing(reqs, installed) == []
  {
    forall k | 0 <= k < |reqs| ensures !NeedsInstallIn(installed)(reqs[k]) {
      ListedRequirementNotQueued(reqs[k], installed);
    }
    FilterNone(reqs, NeedsInstallIn(installed));
  }

  /** One more requirement adds itself to the queue exactly when its name is missing. */
  lemma MissingSnoc(reqs: seq<string>, i: nat, installed: string)
    requires i < |reqs|
    ensures Missing(reqs[..i + 1], installed) ==
      Missing(reqs[..i], installed) + (if NeedsInstall(reqs[i], installed) then [reqs[i]] else [])
  {
    assert reqs[..i + 1] == reqs[..i] + [reqs[i]];
    MissingAppend(reqs[..i], [reqs[i]], installed);
    FilterOne(reqs[i], NeedsInstallIn(installed));
  }

  /** The loop of `smart_install_requirements` that builds `to_install`. */
  method SelectMissing(requirements: seq<string>, installed: string) returns (toInstall: seq<string>)
    ensures toInstall == Missing(requirements, installed)
  {
    toInstall := [];
    for i := 0 to |requirements|
      invariant toInstall == Missing(requirements[..i], installed)
    {
      var req := requirements[i];
      var pkgName := BareName(req);
      MissingSnoc(requirements, i, installed);
      if !Contains(Lower(installed), Lower(pkgName)) {
        toInstall := toInstall + [req];
      }
    }
    assert requirements[..|requirements|] == requirements;
  }

  // ---------------------------------------------------------------------------
  // The combined install command
  // ---------------------------------------------------------------------------

  /** `f"{pip_exe} install --upgrade --no-cache-dir {' '.join(to_install)}"`. */
  function InstallCommand(toInstall: seq<string>): string {
    PIP_EXE + " install --upgrade --no-cache-dir " + Join(toInstall, " ")
  }

  /** The executable and the fixed flags, joined with spaces, are the start of the command. */
  lemma CommandHead()
    ensures Join([PIP_EXE] + INSTALL_FLAGS, " ") == PIP_EXE + " install --upgrade --no-cache-dir"
  {
  }

  /** None of the executable and the fixed flags holds a space. */
  lemma CommandHeadWords()
    ensures forall k :: 0 <= k < 4 ==> ' ' !in ([PIP_EXE] + INSTALL_FLAGS)[k]
  {
    var head := [PIP_EXE] + INSTALL_FLAGS;
    assert head[0] == PIP_EXE && head[1] == "install" && head[2] == "--upgrade" && head[3] == "--no-cache-dir";
    assert forall i :: 0 <= i < |PIP_EXE| ==> PIP_EXE[i] != ' ';
    assert forall i :: 0 <= i < |"--no-cache-dir"| ==> "--no-cache-dir"[i] != ' ';
  }

  /** Split at spaces, the command is pip, the fixed flags, then every queued requirement in order (when none holds a space). */
  lemma InstallCommandWords(toInstall: seq<string>)
    requires toInstall != []
    requires forall k :: 0 <= k < |toInstall| ==> ' ' !in toInstall[k]
    ensures Split(InstallCommand(toInstall), " ") == [PIP_EXE] + INSTALL_FLAGS + toInstall
  {
    var head := [PIP_EXE] + INSTALL_FLAGS;
    CommandHead();
    CommandHeadWords();
    JoinAppend(head, toInstall, " ");
    var words := head + toInstall;
    forall k | 0 <= k < |words| ensures " "[0] !in words[k] {
      if k >= |head| {
        assert words[k] == toInstall[k - |head|];
      } else {
        assert words[k] == head[k];
      }
    }
    assert InstallCommand(toInstall) == Join(words, " ");
    SplitJoin(words, " ");
  }
}
