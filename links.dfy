/**
 * The choice of the two Annex links in Ans.py's `find_and_download_anexos`: every
 * anchor's href is tested against each annex pattern, the last matching href
 * wins, and nothing is downloaded unless both annexes were found. The page
 * itself comes from a browser, so the model takes the anchors' hrefs as input;
 * an anchor whose href is missing, or whose attribute read raised (the loop
 * logs and skips it), is a None.
 */
module AnnexLinks {
  import opened Options
  import opened Text
  import opened Settings

  /** Ans.py's own copies of the two link patterns. */
  const AnsAnexoIPattern: string := "Anexo_I_Rol"
  const AnsAnexoIIPattern: string := "Anexo_II_DUT"

  /** Ans.py's patterns are those of config/settings.py, and neither occurs inside the other. */
  lemma SamePatterns()
    ensures AnsAnexoIPattern == AnexoIPattern && AnsAnexoIIPattern == AnexoIIPattern
    ensures !Contains(AnsAnexoIPattern, AnsAnexoIIPattern) && !Contains(AnsAnexoIIPattern, AnsAnexoIPattern)
  {
    PatternsIndependent();
  }

  /** `href and pattern in href and href.endswith(".pdf")` */
  predicate Matches(href: Option<string>, pattern: string)
  {
    href.Some? && |href.value| > 0 && Contains(href.value, pattern) && EndsWith(href.value, ".pdf")
  }

  /** The href the loop leaves in the variable for `pattern`: the last matching one. */
  function LastMatch(hrefs: seq<Option<string>>, pattern: string): (r: Option<string>)
    ensures r.Some? ==> Matches(r, pattern)
    decreases |hrefs|
  {
    if |hrefs| == 0 then None
    else if Matches(hrefs[|hrefs| - 1], pattern) then hrefs[|hrefs| - 1]
    else LastMatch(hrefs[..|hrefs| - 1], pattern)
  }

  /** The loop over the page's links, remembering the latest match for each annex. */
  method ScanLinks(hrefs: seq<Option<string>>) returns (anexoI: Option<string>, anexoII: Option<string>)
    ensures anexoI == LastMatch(hrefs, AnsAnexoIPattern)
    ensures anexoII == LastMatch(hrefs, AnsAnexoIIPattern)
  {
    anexoI, anexoII := None, None;
    for k := 0 to |hrefs|
      invariant anexoI == LastMatch(hrefs[..k], AnsAnexoIPattern)
      invariant anexoII == LastMatch(hrefs[..k], AnsAnexoIIPattern)
    {
      assert hrefs[..k + 1][..k] == hrefs[..k];
      var href := hrefs[k];
      if href.Some? && |href.value| > 0 {
        if Contains(href.value, AnsAnexoIPattern) && EndsWith(href.value, ".pdf") {
          anexoI := href;
        }
        if Contains(href.value, AnsAnexoIIPattern) && EndsWith(href.value, ".pdf") {
          anexoII := href;
        }
      }
    }
    assert hrefs[..|hrefs|] == hrefs;
  }

  /** The two annex URLs, or None when `find_and_download_anexos` gives up with `(None, None)`. */
  function AnnexUrls(hrefs: seq<Option<string>>): Option<(string, string)>
  {
    var i := LastMatch(hrefs, AnsAnexoIPattern);
    var ii := LastMatch(hrefs, AnsAnexoIIPattern);
    if i.None? || ii.None? then None else Some((i.value, ii.value))
  }

  /** The link search of `find_and_download_anexos`, up to the check that both annexes were found. */
  method FindAnnexLinks(hrefs: seq<Option<string>>) returns (r: Option<(string, string)>)
    ensures r == AnnexUrls(hrefs)
  {
    var anexoI, anexoII := ScanLinks(hrefs);
    if anexoI.None? || anexoII.None? {
      return None;
    }
    r := Some((anexoI.value, anexoII.value));
  }

  /** No annex is found exactly when no href matches its pattern. */
  lemma {:induction false} LastMatchNone(hrefs: seq<Option<string>>, pattern: string)
    ensures LastMatch(hrefs, pattern).None? <==> forall i | 0 <= i < |hrefs| :: !Matches(hrefs[i], pattern)
    decreases |hrefs|
  {
    if |hrefs| > 0 {
      var init := hrefs[..|hrefs| - 1];
      LastMatchNone(init, pattern);
      assert forall i | 0 <= i < |init| :: init[i] == hrefs[i];
    }
  }

  /** The annex found is the matching href that no later href overrides. */
  lemma {:induction false} LastMatchIsLast(hrefs: seq<Option<string>>, pattern: string, i: nat)
    requires i < |hrefs| && Matches(hrefs[i], pattern)
    requires forall j | i < j < |hrefs| :: !Matches(hrefs[j], pattern)
    ensures LastMatch(hrefs, pattern) == hrefs[i]
    decreases |hrefs|
  {
    if i < |hrefs| - 1 {
      var init := hrefs[..|hrefs| - 1];
      assert init[i] == hrefs[i];
      assert forall j | i < j < |init| :: init[j] == hrefs[j];
      LastMatchIsLast(init, pattern, i);
    }
  }

  /** Whatever is found was one of the hrefs, and every later href fails the test. */
  lemma {:induction false} LastMatchFromHrefs(hrefs: seq<Option<string>>, pattern: string)
    requires LastMatch(hrefs, pattern).Some?
    ensures exists i | 0 <= i < |hrefs| ::
      hrefs[i] == LastMatch(hrefs, pattern) && forall j | i < j < |hrefs| :: !Matches(hrefs[j], pattern)
    decreases |hrefs|
  {
    var n := |hrefs| - 1;
    if !Matches(hrefs[n], pattern) {
      var init := hrefs[..n];
      LastMatchFromHrefs(init, pattern);
      var i :| 0 <= i < |init| &&
        init[i] == LastMatch(init, pattern) && forall j | i < j < |init| :: !Matches(init[j], pattern);
      assert hrefs[i] == init[i];
      assert forall j | i < j < n :: hrefs[j] == init[j];
    }
  }

  /** Both annexes are required: the search succeeds exactly when each pattern matches some href. */
  lemma AnnexUrlsFound(hrefs: seq<Option<string>>)
    ensures AnnexUrls(hrefs).Some? <==>
      (exists i | 0 <= i < |hrefs| :: Matches(hrefs[i], AnsAnexoIPattern)) &&
      (exists i | 0 <= i < |hrefs| :: Matches(hrefs[i], AnsAnexoIIPattern))
  {
    LastMatchNone(hrefs, AnsAnexoIPattern);
    LastMatchNone(hrefs, AnsAnexoIIPattern);
  }

  /** The two tests are independent: one href matching both patterns is taken for both annexes. */
  lemma OneHrefForBoth(hrefs: seq<Option<string>>, u: string)
    requires Matches(Some(u), AnsAnexoIPattern) && Matches(Some(u), AnsAnexoIIPattern)
    ensures AnnexUrls(hrefs + [Some(u)]) == Some((u, u))
  {
    assert (hrefs + [Some(u)])[..|hrefs|] == hrefs;
  }
}
