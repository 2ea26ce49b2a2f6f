/**
 * Industry detection for scaffold generation: pick the first template of which
 * at least two keywords occur in the project description, ignoring case.
 */
module Matcher {
  import opened Templates

  /** ASCII lower-casing of one character. */
  function LowerChar(c: char): (r: char)
  {
    if 'A' <= c <= 'Z' then (c as int - 'A' as int + 'a' as int) as char else c
  }

  function ToLower(s: string): (r: string)
  {
    seq(|s|, i requires 0 <= i < |s| => LowerChar(s[i]))
  }

  /** String.prototype.includes: `part` occurs in `text` as a contiguous substring. */
  predicate Includes(text: string, part: string)
  {
    exists i :: 0 <= i <= |text| && part <= text[i..]
  }

  /** How many entries of `keywords` occur, lower-cased, in the already lower-cased description. */
  function MatchCount(lowerDesc: string, keywords: seq<string>): (n: nat)
    ensures n <= |keywords|
  {
    if keywords == [] then 0
    else
      var last := keywords[|keywords| - 1];
      MatchCount(lowerDesc, keywords[..|keywords| - 1])
      + (if Includes(lowerDesc, ToLower(last)) then 1 else 0)
  }

  /** The loop over the template table: the key of the first template with two or more hits, else saas. */
  function FirstMatch(lowerDesc: string, templates: seq<Template>): (r: TemplateType)
  {
    if templates == [] then Saas
    else if MatchCount(lowerDesc, templates[0].keywords) >= 2 then templates[0].key
    else FirstMatch(lowerDesc, templates[1..])
  }

  function DetectIndustry(description: string): (r: TemplateType)
  {
    FirstMatch(ToLower(description), AllTemplates)
  }

  function HasKeyword(description: string, keywords: seq<string>): (r: bool)
  {
    var lowerDesc := ToLower(description);
    exists k <- keywords :: Includes(lowerDesc, ToLower(k))
  }

  // ---------------------------------------------------------------------------

  lemma ToLowerIdempotent(s: string)
    ensures ToLower(ToLower(s)) == ToLower(s)
  {
  }

  /** The number of hits is the number of keyword ENTRIES that occur, however often each occurs. */
  lemma {:induction false} MatchCountCountsEntries(lowerDesc: string, keywords: seq<string>)
    ensures MatchCount(lowerDesc, keywords)
         == |set i | 0 <= i < |keywords| && Includes(lowerDesc, ToLower(keywords[i]))|
  {
    if keywords != [] {
      var n := |keywords| - 1;
      var init := keywords[..n];
      MatchCountCountsEntries(lowerDesc, init);
      var whole := set i | 0 <= i < |keywords| && Includes(lowerDesc, ToLower(keywords[i]));
      var front := set i | 0 <= i < |init| && Includes(lowerDesc, ToLower(init[i]));
      assert n !in front;
      if Includes(lowerDesc, ToLower(keywords[n])) {
        assert whole == front + {n};
      } else {
        assert whole == front;
      }
    }
  }

  /**
   * The template loop returns the key of the first template with at least two
   * hits, even when a later one has more; when there is none it returns saas.
   */
  lemma {:induction false} FirstMatchIsFirstQualifying(lowerDesc: string, templates: seq<Template>)
    ensures
      || (exists i :: 0 <= i < |templates| && MatchCount(lowerDesc, templates[i].keywords) >= 2
            && FirstMatch(lowerDesc, templates) == templates[i].key
            && forall j :: 0 <= j < i ==> MatchCount(lowerDesc, templates[j].keywords) < 2)
      || (FirstMatch(lowerDesc, templates) == Saas
            && forall j :: 0 <= j < |templates| ==> MatchCount(lowerDesc, templates[j].keywords) < 2)
  {
    if templates != [] && MatchCount(lowerDesc, templates[0].keywords) < 2 {
      var rest := templates[1..];
      FirstMatchIsFirstQualifying(lowerDesc, rest);
      if exists i :: 0 <= i < |rest| && MatchCount(lowerDesc, rest[i].keywords) >= 2
           && FirstMatch(lowerDesc, rest) == rest[i].key
           && forall j :: 0 <= j < i ==> MatchCount(lowerDesc, rest[j].keywords) < 2
      {
        var i :| 0 <= i < |rest| && MatchCount(lowerDesc, rest[i].keywords) >= 2
           && FirstMatch(lowerDesc, rest) == rest[i].key
           && forall j :: 0 <= j < i ==> MatchCount(lowerDesc, rest[j].keywords) < 2;
        assert templates[i + 1] == rest[i];
        forall j | 0 <= j < i + 1
          ensures MatchCount(lowerDesc, templates[j].keywords) < 2
        {
          if j > 0 {
            assert templates[j] == rest[j - 1];
          }
        }
      } else {
        forall j | 0 <= j < |templates|
          ensures MatchCount(lowerDesc, templates[j].keywords) < 2
        {
          if j > 0 {
            assert templates[j] == rest[j - 1];
          }
        }
      }
    }
  }

  /**
   * Agtech wins with two or more agtech hits; fintech needs fewer than two
   * agtech hits and two or more fintech hits; everything else is saas.
   */
  lemma DetectIndustryCases(description: string)
    ensures var d := ToLower(description);
      var agtech := MatchCount(d, AgtechKeywords);
      var fintech := MatchCount(d, FintechKeywords);
      && (DetectIndustry(description) == Agtech <==> agtech >= 2)
      && (DetectIndustry(description) == Fintech <==> agtech < 2 && fintech >= 2)
      && (DetectIndustry(description) == Saas <==> agtech < 2 && fintech < 2)
  {
    var d := ToLower(description);
    var t := AllTemplates;
    assert t[0] == Template(Agtech, AgtechKeywords);
    assert t[1..] == [Template(Fintech, FintechKeywords), Template(Saas, SaasKeywords)];
    assert t[1..][1..] == [Template(Saas, SaasKeywords)];
    assert t[1..][1..][1..] == [];
    assert FirstMatch(d, t[1..][1..]) == Saas;
    assert FirstMatch(d, t[1..]) == if MatchCount(d, FintechKeywords) >= 2 then Fintech else Saas;
  }

  /** A template with exactly one hit is never chosen on that account. */
  lemma SingleHitNeverSelects(description: string)
    ensures MatchCount(ToLower(description), AgtechKeywords) == 1 ==> DetectIndustry(description) != Agtech
    ensures MatchCount(ToLower(description), FintechKeywords) == 1 ==> DetectIndustry(description) != Fintech
  {
    DetectIndustryCases(description);
  }

  /** Keyword matching ignores the case of the description. */
  lemma DetectIndustryIgnoresCase(description: string, keywords: seq<string>)
    ensures DetectIndustry(ToLower(description)) == DetectIndustry(description)
    ensures HasKeyword(ToLower(description), keywords) == HasKeyword(description, keywords)
  {
    ToLowerIdempotent(description);
  }

  /** Lower-casing the keywords beforehand changes nothing either. */
  lemma {:induction false} MatchCountIgnoresKeywordCase(lowerDesc: string, keywords: seq<string>)
    ensures MatchCount(lowerDesc, seq(|keywords|, i requires 0 <= i < |keywords| => ToLower(keywords[i])))
         == MatchCount(lowerDesc, keywords)
  {
    if keywords != [] {
      var n := |keywords| - 1;
      var lowered := seq(|keywords|, i requires 0 <= i < |keywords| => ToLower(keywords[i]));
      var init := keywords[..n];
      MatchCountIgnoresKeywordCase(lowerDesc, init);
      assert lowered[..n] == seq(|init|, i requires 0 <= i < |init| => ToLower(init[i]));
      ToLowerIdempotent(keywords[n]);
    }
  }

  /** HasKeyword holds exactly when at least one keyword is a hit; never for an empty list. */
  lemma {:induction false} HasKeywordIffSomeHit(description: string, keywords: seq<string>)
    ensures HasKeyword(description, keywords) <==> MatchCount(ToLower(description), keywords) >= 1
    ensures !HasKeyword(description, [])
  {
    var d := ToLower(description);
    if keywords != [] {
      var n := |keywords| - 1;
      var init := keywords[..n];
      HasKeywordIffSomeHit(description, init);
      assert forall k :: k in keywords <==> k in init || k == keywords[n] by {
        assert keywords == init + [keywords[n]];
      }
    }
  }

  /** Lower-casing the keywords beforehand does not change HasKeyword. */
  lemma HasKeywordIgnoresKeywordCase(description: string, keywords: seq<string>)
    ensures HasKeyword(description, seq(|keywords|, i requires 0 <= i < |keywords| => ToLower(keywords[i])))
         == HasKeyword(description, keywords)
  {
    var lowered := seq(|keywords|, i requires 0 <= i < |keywords| => ToLower(keywords[i]));
    HasKeywordIffSomeHit(description, keywords);
    HasKeywordIffSomeHit(description, lowered);
    MatchCountIgnoresKeywordCase(ToLower(description), keywords);
  }
}
