/** The leftmost search for the energy pattern, and how its result behaves
    when text is added around the console output. */
module EnergySearch {
  import opened Wrappers
  import opened LeftmostSearch
  import opened EnergyPattern

  /** The pattern as an anchored matcher, the form the search takes. */
  function Matcher(lit: string): string -> Option<Token>
  {
    u => MatchAt(lit, u)
  }

  /** No position of `s` holds a match. */
  predicate NoMatch(lit: string, s: string)
  {
    NoMatchIn(Matcher(lit), s)
  }

  /** `tok` is matched at position `p` of `s`, and no position before it holds
      a match. */
  predicate IsFirstMatch(lit: string, s: string, p: nat, tok: Token)
  {
    IsFirst(Matcher(lit), s, p, tok)
  }

  /** `re.search` of the pattern in `s`: the leftmost match and its position. */
  function FirstMatch(lit: string, s: string): (r: Option<At<Token>>)
    ensures r.None? <==> NoMatch(lit, s)
    ensures r.Some? ==> IsFirstMatch(lit, s, r.value.pos, r.value.value)
  {
    Search(Matcher(lit), s)
  }

  /** The leftmost match is the only answer the search can give. */
  lemma FirstMatchIsUnique(lit: string, s: string, p: nat, tok: Token)
    requires IsFirstMatch(lit, s, p, tok)
    ensures FirstMatch(lit, s) == Some(At(p, tok))
  {
    SearchLeftmost(Matcher(lit), s, p, tok);
  }

  /** The first match, position by position: it is a match, and so is
      nothing before it. */
  lemma IsFirstMatchAt(lit: string, s: string, p: nat, tok: Token)
    ensures IsFirstMatch(lit, s, p, tok)
        <==> p <= |s| && MatchAt(lit, s[p..]) == Some(tok)
             && forall k {:trigger MatchAt(lit, s[k..])} :: 0 <= k < p ==> MatchAt(lit, s[k..]).None?
  {
    if p <= |s| && MatchAt(lit, s[p..]) == Some(tok)
       && forall k {:trigger MatchAt(lit, s[k..])} :: 0 <= k < p ==> MatchAt(lit, s[k..]).None? {
      forall k {:trigger Matcher(lit)(s[k..])} | 0 <= k < p ensures Matcher(lit)(s[k..]).None? {
        assert MatchAt(lit, s[k..]).None?;
      }
    }
    if IsFirstMatch(lit, s, p, tok) {
      forall k {:trigger MatchAt(lit, s[k..])} | 0 <= k < p ensures MatchAt(lit, s[k..]).None? {
        assert Matcher(lit)(s[k..]).None?;
      }
    }
  }

  /** The declarative description, position by position: no position holds
      a match exactly when no position opens with an accepted token. */
  lemma NoMatchIffNoneAccepted(lit: string, s: string)
    ensures NoMatch(lit, s) <==> forall k, tok :: 0 <= k <= |s| ==> !Accepts(lit, s[k..], tok)
  {
    if forall k, tok :: 0 <= k <= |s| ==> !Accepts(lit, s[k..], tok) {
      forall k {:trigger Matcher(lit)(s[k..])} | 0 <= k <= |s| ensures Matcher(lit)(s[k..]).None? {
        if MatchAt(lit, s[k..]).Some? {
          MatchAtExactly(lit, s[k..], MatchAt(lit, s[k..]).value);
        }
      }
    }
    if NoMatch(lit, s) {
      forall k, tok | 0 <= k <= |s| ensures !Accepts(lit, s[k..], tok) {
        assert Matcher(lit)(s[k..]).None?;
        MatchAtExactly(lit, s[k..], tok);
      }
    }
  }

  /** The search result in the declarative description's terms: there is
      none exactly when no position opens with an accepted token, and
      otherwise the token is accepted where the match starts. */
  lemma FirstMatchAccepts(lit: string, s: string)
    ensures FirstMatch(lit, s).None? <==> forall k, tok :: 0 <= k <= |s| ==> !Accepts(lit, s[k..], tok)
    ensures FirstMatch(lit, s).Some? ==>
              var a := FirstMatch(lit, s).value;
              a.pos <= |s| && Accepts(lit, s[a.pos..], a.value)
  {
    NoMatchIffNoneAccepted(lit, s);
    if FirstMatch(lit, s).Some? {
      var a := FirstMatch(lit, s).value;
      assert Matcher(lit)(s[a.pos..]) == Some(a.value);
      MatchAtExactly(lit, s[a.pos..], a.value);
    }
  }

  /** Appending text after a settled leftmost match leaves it the leftmost
      match. */
  lemma AppendKeepsFirstMatch(lit: string, s: string, t: string, p: nat, tok: Token)
    requires IsFirstMatch(lit, s, p, tok)
    requires SettledAt(s, p + |lit| + |Text(tok)|)
    ensures IsFirstMatch(lit, s + t, p, tok)
  {
    assert MatchAt(lit, s[p..]) == Some(tok);
    MatchInside(lit, s, p, tok);
    MatchAtExtendAt(lit, s, t, p, tok);
    forall k {:trigger Matcher(lit)((s + t)[k..])} | 0 <= k < p ensures Matcher(lit)((s + t)[k..]).None? {
      assert Matcher(lit)(s[k..]).None?;
      NoMatchStaysNone(lit, s, t, k);
    }
  }

  /** Prepending whole lines that hold no match shifts the search result and
      changes nothing else. */
  lemma PrependKeepsFirstMatch(lit: string, pre: string, s: string)
    requires NoNewline(lit)
    requires NoMatch(lit, pre)
    requires pre == [] || pre[|pre| - 1] == '\n'
    ensures FirstMatch(lit, pre + s)
         == match FirstMatch(lit, s)
            case None => None
            case Some(a) => Some(At(|pre| + a.pos, a.value))
  {
    forall k {:trigger Matcher(lit)((pre + s)[k..])} | 0 <= k < |pre| ensures Matcher(lit)((pre + s)[k..]).None? {
      assert Matcher(lit)(pre[k..]).None?;
      NoMatchBeforeLineEnd(lit, pre, s, k);
    }
    SearchPrepend(Matcher(lit), pre, s);
  }

  /** A match needs the literal's first character, so a text without it
      holds no match. */
  lemma NoLeadNoMatch(lit: string, s: string)
    requires |lit| > 0 && forall i :: 0 <= i < |s| ==> s[i] != lit[0]
    ensures NoMatch(lit, s)
  {
    forall k {:trigger Matcher(lit)(s[k..])} | 0 <= k <= |s| ensures Matcher(lit)(s[k..]).None? {
      if k < |s| { assert s[k..][0] == s[k]; }
    }
  }

  /** A match needs the literal and at least one digit, so a text no longer
      than the literal holds no match. */
  lemma TooShortNoMatch(lit: string, s: string)
    requires |s| <= |lit|
    ensures NoMatch(lit, s)
  {
    forall k {:trigger Matcher(lit)(s[k..])} | 0 <= k <= |s| ensures Matcher(lit)(s[k..]).None? {
      MatchAtOccurs(lit, s[k..]);
    }
  }
}
