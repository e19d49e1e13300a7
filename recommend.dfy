/**
 * The recommendation handler: keep the catalog projects whose lower-cased
 * description contains a word of the lower-cased role, score each kept
 * project, and cut the list down to the first `topN`.
 *
 * The random scores are an input: `draw(k)` is the k-th value the random
 * source yields during the request (a number in [0, 1)), and the k-th kept
 * project is scored ten times that value.
 */
module Recommend {
  import opened Text
  import opened Records

  // ---------------------------------------------------------------------------
  // The filter, as functions of the catalog
  // ---------------------------------------------------------------------------

  /** The words the role is matched by: lower-cased, then split at white space. */
  function RoleWords(role: string): (words: seq<string>)
    ensures forall k :: 0 <= k < |words| ==> IsWord(words[k])
    ensures forall k, i :: 0 <= k < |words| && 0 <= i < |words[k]| ==> !IsUpper(words[k][i])
  {
    FieldsCharsFrom(ToLower(role));
    Fields(ToLower(role))
  }

  /** The filter's test: some role word occurs in the lower-cased description. */
  predicate Matches(p: Project, words: seq<string>) {
    exists k :: 0 <= k < |words| && Contains(ToLower(p.description), words[k])
  }

  /** The catalog projects that pass the filter, in catalog order. */
  function Matching(catalog: seq<Project>, words: seq<string>): (kept: seq<Project>)
    ensures |kept| <= |catalog|
    ensures forall k :: 0 <= k < |kept| ==> Matches(kept[k], words)
    decreases |catalog|
  {
    if catalog == [] then []
    else (if Matches(catalog[0], words) then [catalog[0]] else []) + Matching(catalog[1..], words)
  }

  /** The catalog positions that pass the filter, in ascending order. */
  function Positions(catalog: seq<Project>, words: seq<string>): seq<nat>
    decreases |catalog|
  {
    if catalog == [] then []
    else (if Matches(catalog[0], words) then [0] else []) + Shift(Positions(catalog[1..], words))
  }

  function Shift(idx: seq<nat>): (r: seq<nat>)
    ensures |r| == |idx| && forall k :: 0 <= k < |idx| ==> r[k] == idx[k] + 1
  {
    seq(|idx|, k requires 0 <= k < |idx| => idx[k] + 1)
  }

  /** Strictly ascending positions: none is listed twice. */
  predicate Ascending(idx: seq<nat>) {
    forall k1, k2 :: 0 <= k1 < k2 < |idx| ==> idx[k1] < idx[k2]
  }

  /** Some word occurs in the project's lower-cased description. */
  ghost predicate HasWitness(p: Project, words: seq<string>) {
    exists j :: 0 <= j < |words| && IsSubstring(words[j], ToLower(p.description))
  }

  /** Two projects that differ at most in their score. */
  predicate SameProject(a: Project, b: Project) {
    a.name == b.name && a.description == b.description && a.url == b.url
  }

  /** Each project with the score drawn for it, in order. */
  function Scored(projects: seq<Project>, draw: nat -> real): (r: seq<Project>)
    ensures |r| == |projects|
    ensures forall k :: 0 <= k < |r| ==> SameProject(r[k], projects[k]) && r[k].score == 10.0 * draw(k)
  {
    seq(|projects|, k requires 0 <= k < |projects| => projects[k].(score := 10.0 * draw(k)))
  }

  function Min(a: int, b: int): int {
    if a <= b then a else b
  }

  /** The first `n` projects, or all of them if there are fewer. */
  function Truncate(projects: seq<Project>, n: nat): (r: seq<Project>)
    ensures |r| == Min(|projects|, n)
    ensures r == projects[..|r|]
  {
    if |projects| > n then projects[..n] else projects
  }

  /** The handler's outcome for a catalog, a role and a limit. */
  function Recommendation(catalog: seq<Project>, role: string, topN: int, draw: nat -> real)
    : (r: Result<seq<Project>>)
    ensures r == Err(Unavailable) <==> |catalog| == 0
    ensures r == Err(NegativeLimit) <==> |catalog| > 0 && topN < 0
  {
    if |catalog| == 0 then Err(Unavailable)
    else if topN < 0 then Err(NegativeLimit)
    else Ok(Truncate(Scored(Matching(catalog, RoleWords(role)), draw), topN))
  }

  // ---------------------------------------------------------------------------
  // The handler
  // ---------------------------------------------------------------------------

  /**
   * The recommendation handler. Each catalog project is matched against the
   * role words in turn; the first word that matches scores the project,
   * keeps it and stops the test. A negative `topN` makes the final slice
   * panic, which the server reports as an error.
   */
  method RecommendProjects(catalog: seq<Project>, role: string, topN: int, draw: nat -> real)
    returns (res: Result<seq<Project>>)
    ensures res == Recommendation(catalog, role, topN, draw)
  {
    if |catalog| == 0 {
      return Err(Unavailable);
    }
    var roleWords := Fields(ToLower(role));
    var recommended: seq<Project> := [];
    for i := 0 to |catalog|
      invariant recommended == Scored(Matching(catalog[..i], roleWords), draw)
    {
      var proj := catalog[i];
      ghost var before, kept, text := recommended, false, ToLower(catalog[i].description);
      for j := 0 to |roleWords|
        invariant recommended == before && proj == catalog[i] && !kept
        invariant forall k :: 0 <= k < j ==> !Contains(text, roleWords[k])
      {
        if Contains(ToLower(proj.description), roleWords[j]) {
          assert Matches(catalog[i], roleWords);
          proj := proj.(score := 10.0 * draw(|recommended|));
          recommended := recommended + [proj];
          kept := true;
          break;
        }
      }
      if kept {
        ScanKeeps(catalog, i, roleWords, draw, before);
      } else {
        NoWordMatches(catalog[i], roleWords);
        ScanSkips(catalog, i, roleWords, draw, before);
      }
    }
    assert catalog[..|catalog|] == catalog;
    if |recommended| > topN {
      if topN < 0 {
        return Err(NegativeLimit);
      }
      recommended := recommended[..topN];
    }
    return Ok(recommended);
  }

  // ---------------------------------------------------------------------------
  // Lemmas about the filter
  // ---------------------------------------------------------------------------

  /** Filtering a concatenation filters each part. */
  lemma {:induction false} MatchingAppend(a: seq<Project>, b: seq<Project>, words: seq<string>)
    ensures Matching(a + b, words) == Matching(a, words) + Matching(b, words)
    decreases |a|
  {
    if a == [] {
      assert a + b == b;
    } else {
      assert (a + b)[0] == a[0];
      assert (a + b)[1..] == a[1..] + b;
      MatchingAppend(a[1..], b, words);
    }
  }

  lemma MatchingSnoc(a: seq<Project>, p: Project, words: seq<string>)
    ensures Matching(a + [p], words) == Matching(a, words) + (if Matches(p, words) then [p] else [])
  {
    MatchingAppend(a, [p], words);
    assert Matching([p], words) == (if Matches(p, words) then [p] else []) + Matching([], words);
  }

  lemma ScoredSnoc(kept: seq<Project>, p: Project, draw: nat -> real)
    ensures Scored(kept + [p], draw) == Scored(kept, draw) + [p.(score := 10.0 * draw(|kept|))]
  {
  }

  /** A scanned project that passes the filter is scored with the next draw and kept. */
  lemma ScanKeeps(catalog: seq<Project>, i: nat, words: seq<string>, draw: nat -> real, before: seq<Project>)
    requires i < |catalog| && Matches(catalog[i], words)
    requires before == Scored(Matching(catalog[..i], words), draw)
    ensures before + [catalog[i].(score := 10.0 * draw(|before|))] == Scored(Matching(catalog[..i + 1], words), draw)
  {
    assert catalog[..i + 1] == catalog[..i] + [catalog[i]];
    MatchingSnoc(catalog[..i], catalog[i], words);
    ScoredSnoc(Matching(catalog[..i], words), catalog[i], draw);
  }

  /** A scanned project that fails the filter is dropped. */
  lemma ScanSkips(catalog: seq<Project>, i: nat, words: seq<string>, draw: nat -> real, before: seq<Project>)
    requires i < |catalog| && !Matches(catalog[i], words)
    requires before == Scored(Matching(catalog[..i], words), draw)
    ensures before == Scored(Matching(catalog[..i + 1], words), draw)
  {
    var done := catalog[..i];
    assert catalog[..i + 1] == done + [catalog[i]];
    MatchingSnoc(done, catalog[i], words);
    assert Matching(done, words) + [] == Matching(done, words);
  }

  /** A description that contains none of the words fails the filter. */
  lemma NoWordMatches(p: Project, words: seq<string>)
    requires forall k :: 0 <= k < |words| ==> !Contains(ToLower(p.description), words[k])
    ensures !Matches(p, words)
  {
  }

  /** `Matching` is the catalog read at the positions `Positions` lists. */
  lemma {:induction false} PositionsSelect(catalog: seq<Project>, words: seq<string>)
    ensures var idx := Positions(catalog, words);
      && |idx| == |Matching(catalog, words)|
      && forall k :: 0 <= k < |idx| ==> idx[k] < |catalog| && Matching(catalog, words)[k] == catalog[idx[k]]
    decreases |catalog|
  {
    if catalog != [] {
      var tail := catalog[1..];
      PositionsSelect(tail, words);
      var rest, restKept := Positions(tail, words), Matching(tail, words);
      var n := if Matches(catalog[0], words) then 1 else 0;
      var idx, kept := Positions(catalog, words), Matching(catalog, words);
      assert idx == (if n == 1 then [0] else []) + Shift(rest);
      assert kept == (if n == 1 then [catalog[0]] else []) + restKept;
      forall k | 0 <= k < |idx|
        ensures idx[k] < |catalog| && kept[k] == catalog[idx[k]]
      {
        if k >= n {
          assert idx[k] == rest[k - n] + 1;
          assert kept[k] == restKept[k - n] == tail[rest[k - n]];
        }
      }
    }
  }

  /** The positions ascend strictly, so no catalog entry is selected twice. */
  lemma {:induction false} PositionsAscend(catalog: seq<Project>, words: seq<string>)
    ensures Ascending(Positions(catalog, words))
    decreases |catalog|
  {
    if catalog != [] {
      var tail := catalog[1..];
      PositionsAscend(tail, words);
      var rest := Positions(tail, words);
      var n := if Matches(catalog[0], words) then 1 else 0;
      var idx := Positions(catalog, words);
      assert idx == (if n == 1 then [0] else []) + Shift(rest);
      forall k1, k2 | 0 <= k1 < k2 < |idx| ensures idx[k1] < idx[k2] {
        assert idx[k2] == rest[k2 - n] + 1;
        if k1 >= n {
          assert idx[k1] == rest[k1 - n] + 1;
        } else {
          assert idx[k1] == 0;
        }
      }
    }
  }

  /** A position is listed exactly when the catalog entry there passes the filter. */
  lemma {:induction false} PositionsExact(catalog: seq<Project>, words: seq<string>)
    ensures forall i :: 0 <= i < |catalog| ==> (i in Positions(catalog, words) <==> Matches(catalog[i], words))
    decreases |catalog|
  {
    if catalog != [] {
      var tail := catalog[1..];
      PositionsExact(tail, words);
      var rest := Positions(tail, words);
      var head := if Matches(catalog[0], words) then [0] else [];
      var idx := Positions(catalog, words);
      assert idx == head + Shift(rest);
      forall i | 0 <= i < |catalog|
        ensures i in idx <==> Matches(catalog[i], words)
      {
        if i == 0 {
          assert 0 !in Shift(rest);
        } else {
          assert catalog[i] == tail[i - 1];
          assert i in Shift(rest) <==> i - 1 in rest by {
            if i in Shift(rest) {
              var k :| 0 <= k < |rest| && Shift(rest)[k] == i;
              assert rest[k] == i - 1;
            }
            if i - 1 in rest {
              var k :| 0 <= k < |rest| && rest[k] == i - 1;
              assert Shift(rest)[k] == i;
            }
          }
          assert i !in head;
        }
      }
    }
  }

  /** Lower-casing keeps white space, so a blank role has no words. */
  lemma BlankRoleHasNoWords(role: string)
    requires AllSpace(role)
    ensures RoleWords(role) == []
  {
    FieldsEmptyIffAllSpace(ToLower(role));
  }

  // ---------------------------------------------------------------------------
  // What a recommendation promises
  // ---------------------------------------------------------------------------

  /** An empty catalog fails whatever the role and the limit. */
  lemma EmptyCatalogFails(role: string, topN: int, draw: nat -> real)
    ensures Recommendation([], role, topN, draw) == Err(Unavailable)
  {
  }

  /**
   * Every recommended project is a catalog project whose lower-cased
   * description contains a (lower-case) word of the role.
   */
  lemma RecommendedHaveWitness(catalog: seq<Project>, role: string, topN: int, draw: nat -> real)
    requires Recommendation(catalog, role, topN, draw).Ok?
    ensures forall p :: p in Recommendation(catalog, role, topN, draw).value ==> HasWitness(p, RoleWords(role))
  {
    var words := RoleWords(role);
    var kept := Matching(catalog, words);
    var r := Recommendation(catalog, role, topN, draw).value;
    forall p | p in r
      ensures HasWitness(p, words)
    {
      var k :| 0 <= k < |r| && r[k] == p;
      assert r[k] == Scored(kept, draw)[k];
      assert r[k].description == kept[k].description;
      var j :| 0 <= j < |words| && Contains(ToLower(kept[k].description), words[j]);
      assert IsSubstring(words[j], ToLower(r[k].description));
    }
  }

  /**
   * The recommendation is the first `min(matches, topN)` catalog projects
   * that pass the filter, in catalog order, each catalog entry at most
   * once, differing from the catalog only in the score.
   */
  lemma RecommendedInCatalogOrder(catalog: seq<Project>, role: string, topN: int, draw: nat -> real)
    requires Recommendation(catalog, role, topN, draw).Ok?
    ensures var r, idx := Recommendation(catalog, role, topN, draw).value, Positions(catalog, RoleWords(role));
      && |r| == Min(|idx|, topN)
      && (forall k :: 0 <= k < |r| ==> idx[k] < |catalog| && SameProject(r[k], catalog[idx[k]]))
      && Ascending(idx)
      && (forall i :: 0 <= i < |catalog| ==> (i in idx <==> Matches(catalog[i], RoleWords(role))))
  {
    PositionsSelect(catalog, RoleWords(role));
    PositionsAscend(catalog, RoleWords(role));
    PositionsExact(catalog, RoleWords(role));
  }

  /** With fewer than `topN` matches, every match is recommended. */
  lemma FewMatchesAllReturned(catalog: seq<Project>, role: string, topN: int, draw: nat -> real)
    requires |catalog| > 0 && 0 <= topN
    requires |Matching(catalog, RoleWords(role))| <= topN
    ensures Recommendation(catalog, role, topN, draw) == Ok(Scored(Matching(catalog, RoleWords(role)), draw))
  {
  }

  /** A role that is empty or all white space recommends nothing. */
  lemma BlankRoleRecommendsNothing(catalog: seq<Project>, role: string, topN: int, draw: nat -> real)
    requires |catalog| > 0 && 0 <= topN && AllSpace(role)
    ensures Recommendation(catalog, role, topN, draw) == Ok([])
  {
    BlankRoleHasNoWords(role);
    assert Matching(catalog, []) == [] by {
      MatchingNoWords(catalog);
    }
  }

  lemma {:induction false} MatchingNoWords(catalog: seq<Project>)
    ensures Matching(catalog, []) == []
    decreases |catalog|
  {
    if catalog != [] {
      assert !Matches(catalog[0], []);
      MatchingNoWords(catalog[1..]);
    }
  }

  /** When the random source yields values in [0, 1), every score lies in [0, 10). */
  lemma ScoresInRange(catalog: seq<Project>, role: string, topN: int, draw: nat -> real)
    requires forall k :: 0.0 <= draw(k) < 1.0
    requires Recommendation(catalog, role, topN, draw).Ok?
    ensures forall p :: p in Recommendation(catalog, role, topN, draw).value ==> 0.0 <= p.score < 10.0
  {
    var r := Recommendation(catalog, role, topN, draw).value;
    forall p | p in r ensures 0.0 <= p.score < 10.0 {
      var k :| 0 <= k < |r| && r[k] == p;
      assert p.score == 10.0 * draw(k);
    }
  }

  /**
   * A worked case: three of four catalog projects mention "backend" in some
   * letter case; asking for two returns the first two of them, in catalog
   * order, with the first two scores drawn.
   */
  lemma BackendTopTwo(draw: nat -> real)
    ensures var catalog := [BackendApi(), Frontend(), BackendJobs(), BackendInfra()];
      Recommendation(catalog, "backend", 2, draw)
        == Ok([BackendApi().(score := 10.0 * draw(0)), BackendJobs().(score := 10.0 * draw(1))])
  {
    BackendIsOneWord();
    BackendMatches();
    FirstTwoOfThree(BackendApi(), Frontend(), BackendJobs(), BackendInfra(), "backend", draw);
  }

  lemma FirstTwoOfThree(a: Project, b: Project, c: Project, d: Project, role: string, draw: nat -> real)
    requires var words := RoleWords(role);
      Matches(a, words) && !Matches(b, words) && Matches(c, words) && Matches(d, words)
    ensures Recommendation([a, b, c, d], role, 2, draw)
      == Ok([a.(score := 10.0 * draw(0)), c.(score := 10.0 * draw(1))])
  {
    var words := RoleWords(role);
    var catalog := [a, b, c, d];
    assert catalog == [a] + [b] + [c] + [d];
    MatchingSnoc([a] + [b] + [c], d, words);
    MatchingSnoc([a] + [b], c, words);
    MatchingSnoc([a], b, words);
    MatchingSnoc([], a, words);
    assert [] + [a] == [a];
    var kept := Matching(catalog, words);
    assert kept == [a, c, d];
    var scored := Scored(kept, draw);
    assert scored[..2] == [scored[0], scored[1]];
    assert scored[0] == a.(score := 10.0 * draw(0));
    assert scored[1] == c.(score := 10.0 * draw(1));
  }

  function BackendApi(): Project { Project("api", "Backend service", "u1", 0.0) }
  function Frontend(): Project { Project("ui", "frontend", "u2", 0.0) }
  function BackendJobs(): Project { Project("jobs", "backend jobs", "u3", 0.0) }
  function BackendInfra(): Project { Project("infra", "BACKEND infra", "u4", 0.0) }

  lemma BackendIsOneWord()
    ensures RoleWords("backend") == ["backend"]
  {
    var word := "backend";
    assert ToLower(word) == word;
    assert JoinWords([word]) == word;
    FieldsJoinWords([word]);
  }

  lemma BackendMatches()
    ensures Matches(BackendApi(), ["backend"]) && !Matches(Frontend(), ["backend"])
    ensures Matches(BackendJobs(), ["backend"]) && Matches(BackendInfra(), ["backend"])
  {
    ApiMatches();
    JobsMatches();
    InfraMatches();
    FrontendMisses();
  }

  lemma ApiMatches()
    ensures Matches(BackendApi(), ["backend"])
  {
    assert BackendApi().description[..7] == "Backend";
    assert ToLower("Backend") == "backend";
    StartsWithMatches(BackendApi(), "backend");
  }

  lemma JobsMatches()
    ensures Matches(BackendJobs(), ["backend"])
  {
    assert BackendJobs().description[..7] == "backend";
    assert ToLower("backend") == "backend";
    StartsWithMatches(BackendJobs(), "backend");
  }

  lemma InfraMatches()
    ensures Matches(BackendInfra(), ["backend"])
  {
    assert BackendInfra().description[..7] == "BACKEND";
    assert ToLower("BACKEND") == "backend";
    StartsWithMatches(BackendInfra(), "backend");
  }

  lemma FrontendMisses()
    ensures !Matches(Frontend(), ["backend"])
  {
    assert !IsSubstring("backend", "frontend") by {
      forall i | 0 <= i <= 1 ensures !OccursAt("backend", "frontend", i) {
        assert "frontend"[i..i + 7][0] == "frontend"[i] != 'b';
      }
    }
    assert ToLower("frontend") == "frontend";
    assert !Contains("frontend", "backend");
  }

  lemma StartsWithMatches(p: Project, word: string)
    requires |word| <= |p.description| && ToLower(p.description[..|word|]) == word
    ensures Matches(p, [word])
  {
    var text := ToLower(p.description);
    assert text[..|word|] == ToLower(p.description[..|word|]);
    assert OccursAt(word, text, 0);
    assert [word][0] == word && Contains(text, word);
  }
}
