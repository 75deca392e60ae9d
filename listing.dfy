/**
  Link discovery on a listing page (`parse_listing`). The HTML library's
  selection of the ad-title anchors is abstracted: the page arrives as the
  sequence of those anchors' `href` attributes, `None` where an anchor has none.
 */
module Listing {
  import opened Wrappers
  import opened Text

  /** The scheme prefix an href must carry to be kept. */
  const Scheme := "http"

  /** The anchor has an href, and it begins with the scheme. Only the four
      letters are tested, so a relative name such as `http-guide.html`
      qualifies too. */
  function Qualifies(href: Option<string>): (b: bool)
    ensures b <==> href.Some? && exists rest :: href.value == Scheme + rest
  {
    href.Some? && StartsWith(href.value, Scheme)
  }

  /** The test is looser than "absolute URL": a relative file name that
      happens to begin with the four letters is kept. */
  lemma RelativeNameQualifies()
    ensures Qualifies(Some("http-guide.html"))
    ensures !Qualifies(Some("/imoveis/anuncio-1")) && !Qualifies(None)
  {
    assert "http-guide.html" == Scheme + "-guide.html";
    assert "/imoveis/anuncio-1"[..4][0] != Scheme[0];
  }

  /** The `links` list the loop builds: every qualifying href cut at its
      first `'?'`, in anchor order, repetitions included. */
  function Candidates(hrefs: seq<Option<string>>): (r: seq<string>)
    ensures |r| <= |hrefs|
    ensures forall k :: 0 <= k < |r| ==> StartsWith(r[k], Scheme) && '?' !in r[k]
  {
    if hrefs == [] then []
    else
      var last := hrefs[|hrefs| - 1];
      if Qualifies(last) then
        StripQueryKeepsPrefix(last.value, Scheme);
        Candidates(hrefs[..|hrefs| - 1]) + [StripQuery(last.value)]
      else
        Candidates(hrefs[..|hrefs| - 1])
  }

  /** `l` is the cut form of one of the qualifying hrefs. */
  predicate CutFromAnchor(hrefs: seq<Option<string>>, l: string) {
    exists i :: 0 <= i < |hrefs| && Qualifies(hrefs[i]) && l == StripQuery(hrefs[i].value)
  }

  /** Each candidate is the cut form of some qualifying href. */
  lemma {:induction false} CandidatesFromAnchors(hrefs: seq<Option<string>>)
    ensures forall k :: 0 <= k < |Candidates(hrefs)| ==> CutFromAnchor(hrefs, Candidates(hrefs)[k])
  {
    if hrefs != [] {
      var init := hrefs[..|hrefs| - 1];
      CandidatesFromAnchors(init);
      var r, r' := Candidates(hrefs), Candidates(init);
      assert r[..|r'|] == r';
      forall k | 0 <= k < |r| ensures CutFromAnchor(hrefs, r[k]) {
        if k < |r'| {
          assert r[k] == r[..|r'|][k];
          assert CutFromAnchor(init, r'[k]);
          var i :| 0 <= i < |init| && Qualifies(init[i]) && r'[k] == StripQuery(init[i].value);
          assert hrefs[i] == init[i];
        } else {
          assert r[k] == StripQuery(hrefs[|hrefs| - 1].value);
        }
      }
    }
  }

  /** No qualifying href is lost: its cut form is among the candidates. */
  lemma {:induction false} CandidatesComplete(hrefs: seq<Option<string>>)
    ensures forall i :: 0 <= i < |hrefs| && Qualifies(hrefs[i]) ==> StripQuery(hrefs[i].value) in Candidates(hrefs)
  {
    if hrefs != [] {
      var init := hrefs[..|hrefs| - 1];
      CandidatesComplete(init);
      forall i | 0 <= i < |hrefs| && Qualifies(hrefs[i])
        ensures StripQuery(hrefs[i].value) in Candidates(hrefs)
      {
        if i < |init| {
          assert init[i] == hrefs[i];
          assert StripQuery(init[i].value) in Candidates(init);
        }
      }
    }
  }

  /** The candidates of two runs of anchors follow each other. */
  lemma {:induction false} CandidatesAppend(a: seq<Option<string>>, b: seq<Option<string>>)
    ensures Candidates(a + b) == Candidates(a) + Candidates(b)
    decreases |b|
  {
    if b == [] {
      assert a + b == a;
    } else {
      var b' := b[..|b| - 1];
      assert (a + b)[..|a + b| - 1] == a + b';
      CandidatesAppend(a, b');
    }
  }

  /** Reading the anchors from the front: the first one contributes its cut
      href when it qualifies and nothing otherwise, then come the rest's. */
  lemma CandidatesCons(h: Option<string>, rest: seq<Option<string>>)
    ensures Candidates([h] + rest) == (if Qualifies(h) then [StripQuery(h.value)] else []) + Candidates(rest)
  {
    CandidatesAppend([h], rest);
    assert [h][..0] == [];
  }

  predicate NoDuplicates<T(==)>(s: seq<T>) {
    forall i, j :: 0 <= i < j < |s| ==> s[i] != s[j]
  }

  /** Position of the first occurrence of `x` in `s`. */
  function IndexOf<T(==)>(s: seq<T>, x: T): (k: nat)
    requires x in s
    ensures k < |s| && s[k] == x && x !in s[..k]
  {
    if s[0] == x then 0 else 1 + IndexOf(s[1..], x)
  }

  /** A first occurrence is still the first occurrence in any longer sequence. */
  lemma IndexOfExtend<T>(s: seq<T>, t: seq<T>, x: T)
    requires x in s
    ensures x in s + t && IndexOf(s + t, x) == IndexOf(s, x)
  {
    var k, k' := IndexOf(s, x), IndexOf(s + t, x);
    assert forall j :: 0 <= j < k' ==> (s + t)[..k'][j] != x;
    assert (s + t)[k] == x;
    assert forall j :: 0 <= j < k ==> s[..k][j] != x;
    assert s[k'] == x;
  }

  /** The de-duplication of `parse_listing`: each element once, at the place of its first
      occurrence. */
  function Dedup<T(==,!new)>(s: seq<T>): (r: seq<T>)
    ensures NoDuplicates(r)
    ensures forall x :: x in r <==> x in s
  {
    if s == [] then []
    else
      var d := Dedup(s[..|s| - 1]);
      assert s == s[..|s| - 1] + [s[|s| - 1]];
      if s[|s| - 1] in d then d else d + [s[|s| - 1]]
  }

  /** The elements kept by `Dedup` are in the order of their first
      occurrences. */
  lemma {:induction false} DedupFirstSeenOrder<T(!new)>(s: seq<T>)
    ensures forall i, j :: 0 <= i < j < |Dedup(s)| ==> IndexOf(s, Dedup(s)[i]) < IndexOf(s, Dedup(s)[j])
  {
    if s != [] {
      var init := s[..|s| - 1];
      var x := s[|s| - 1];
      DedupFirstSeenOrder(init);
      assert s == init + [x];
      forall y | y in init ensures IndexOf(s, y) == IndexOf(init, y) {
        IndexOfExtend(init, [x], y);
      }
      var d := Dedup(init);
      forall i | 0 <= i < |d| ensures d[i] in init && IndexOf(s, d[i]) == IndexOf(init, d[i]) {
        assert d[i] in d;
      }
      if x !in d {
        var r := d + [x];
        assert Dedup(s) == r;
        assert x !in init && IndexOf(s, x) == |s| - 1;
        forall i, j | 0 <= i < j < |r| ensures IndexOf(s, r[i]) < IndexOf(s, r[j]) {
          if j < |d| {
            assert IndexOf(init, d[i]) < IndexOf(init, d[j]);
          }
        }
      } else {
        assert Dedup(s) == d;
      }
    }
  }

  /** `parse_listing`: the anchors' hrefs filtered and cut in a loop, then
      de-duplicated. */
  method ParseListing(hrefs: seq<Option<string>>) returns (links: seq<string>)
    ensures links == Dedup(Candidates(hrefs))
    ensures NoDuplicates(links)
    ensures forall i, j :: 0 <= i < j < |links| ==>
      IndexOf(Candidates(hrefs), links[i]) < IndexOf(Candidates(hrefs), links[j])
    ensures forall l :: l in links ==> StartsWith(l, Scheme) && '?' !in l
    ensures forall l :: l in links ==> CutFromAnchor(hrefs, l)
    ensures forall i :: 0 <= i < |hrefs| && Qualifies(hrefs[i]) ==> StripQuery(hrefs[i].value) in links
  {
    var found: seq<string> := [];
    CandidatesFromAnchors(hrefs);
    CandidatesComplete(hrefs);
    DedupFirstSeenOrder(Candidates(hrefs));
    for n := 0 to |hrefs|
      invariant found == Candidates(hrefs[..n])
    {
      var href := hrefs[n];
      if href.Some? && StartsWith(href.value, Scheme) {
        found := found + [StripQuery(href.value)];
      }
      assert hrefs[..n + 1][..n] == hrefs[..n];
    }
    assert hrefs[..|hrefs|] == hrefs;
    links := Dedup(found);
  }
}
