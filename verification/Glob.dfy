/** Shell patterns: the matcher that remembers only the last star, against what a pattern means. */
module Glob {

  // ---------- groups ----------

  /** Where the body of a group begins: after `[`, and after `!` or `^`. */
  function BodyStart(pat: string): nat {
    if |pat| > 1 && (pat[1] == '!' || pat[1] == '^') then 2 else 1
  }

  predicate Negated(pat: string) {
    BodyStart(pat) == 2
  }

  /** The first `]` from `k` on, or the end. */
  function Closing(pat: string, k: nat): (c: nat)
    requires k <= |pat|
    ensures k <= c <= |pat| && (c < |pat| ==> pat[c] == ']') && forall j :: k <= j < c ==> pat[j] != ']'
    decreases |pat| - k
  {
    if k == |pat| || pat[k] == ']' then k else Closing(pat, k + 1)
  }

  /** The pattern begins with a group: `[`, a body, `]`. */
  predicate IsGroup(pat: string) {
    && pat != "" && pat[0] == '[' && BodyStart(pat) <= |pat|
    && BodyStart(pat) < Closing(pat, BodyStart(pat)) < |pat|
  }

  /** The body names the character, on its own or in a range. */
  predicate BodyHas(body: string, ch: char) {
    if body == "" then false
    else if |body| > 2 && body[1] == '-' then body[0] <= ch <= body[2] || BodyHas(body[3..], ch)
    else body[0] == ch || BodyHas(body[1..], ch)
  }

  function Body(pat: string): string
    requires IsGroup(pat)
  {
    pat[BodyStart(pat)..Closing(pat, BodyStart(pat))]
  }

  predicate GroupHas(pat: string, ch: char)
    requires IsGroup(pat)
  {
    BodyHas(Body(pat), ch) != Negated(pat)
  }

  // ---------- what a group names ----------

  /** A character on its own, or all from one to another. */
  datatype Item = One(c: char) | Range(lo: char, hi: char) {
    predicate Has(ch: char) {
      match this
      case One(c) => ch == c
      case Range(lo, hi) => lo <= ch <= hi
    }

    function Text(): (t: string)
      ensures t != ""
    {
      match this
      case One(c) => [c]
      case Range(lo, hi) => [lo, '-', hi]
    }
  }

  function TextOf(items: seq<Item>): string {
    if items == [] then "" else items[0].Text() + TextOf(items[1..])
  }

  /** No character that stands on its own is followed by what would make it the start of a range. */
  predicate Plain(items: seq<Item>) {
    items != [] ==>
      Plain(items[1..]) && (items[0].One? ==> var t := TextOf(items[1..]); !(|t| > 1 && t[0] == '-'))
  }

  /** A body names just the characters of its items, and those between the ends of its ranges. */
  lemma {:induction false} BodyNames(items: seq<Item>, ch: char)
    requires Plain(items)
    ensures BodyHas(TextOf(items), ch) <==> exists i :: 0 <= i < |items| && items[i].Has(ch)
  {
    if items != [] {
      var first, rest := items[0], items[1..];
      var body := TextOf(items);
      BodyNames(rest, ch);
      assert forall i :: 0 < i < |items| ==> items[i] == rest[i - 1];
      assert (exists i :: 0 <= i < |items| && items[i].Has(ch)) <==> first.Has(ch) || exists i :: 0 <= i < |rest| && rest[i].Has(ch) by {
        if i :| 0 <= i < |rest| && rest[i].Has(ch) {
          assert items[i + 1].Has(ch);
        }
      }
      if first.Range? {
        assert body[3..] == TextOf(rest);
      } else {
        assert body[1..] == TextOf(rest);
      }
    }
  }

  /** And every body is made of items in that way. */
  lemma {:induction false} BodyItems(body: string) returns (items: seq<Item>)
    ensures Plain(items) && TextOf(items) == body
  {
    if body == "" {
      items := [];
    } else if |body| > 2 && body[1] == '-' {
      var rest := BodyItems(body[3..]);
      items := [Range(body[0], body[2])] + rest;
      assert items[1..] == rest;
      assert body == [body[0], '-', body[2]] + body[3..];
    } else {
      var rest := BodyItems(body[1..]);
      items := [One(body[0])] + rest;
      assert items[1..] == rest;
    }
  }

  /** A bracket, perhaps a mark, a body, a bracket: the group has what its body names, or with the mark what it does not. */
  lemma GroupRead(mark: string, body: string, rest: string, ch: char)
    requires mark == "" || mark == "!" || mark == "^"
    requires body != "" && ']' !in body && (mark == "" ==> body[0] != '!' && body[0] != '^')
    ensures var pat := "[" + mark + body + "]" + rest;
            && IsGroup(pat) && Body(pat) == body && Rest(pat) == rest
            && (GroupHas(pat, ch) <==> (BodyHas(body, ch) <==> mark == ""))
  {
    hide BodyHas;
    var pat := "[" + mark + body + "]" + rest;
    var k := 1 + |mark|;
    assert pat[0] == '[' && pat[1] == if mark == "" then body[0] else mark[0];
    assert BodyStart(pat) == k;
    assert pat[k..k + |body|] == body && pat[k + |body|] == ']' && pat[k + |body| + 1..] == rest;
    forall j | k <= j < k + |body|
      ensures pat[j] != ']'
    {
      assert pat[j] == body[j - k];
    }
    assert Closing(pat, k) == k + |body|;
  }

  /** The pattern after its first element. */
  function Rest(pat: string): (r: string)
    requires pat != ""
    ensures |r| < |pat|
  {
    if IsGroup(pat) then pat[Closing(pat, BodyStart(pat)) + 1..] else pat[1..]
  }

  // ---------- what a pattern means ----------

  /**
    A star stands for any run of characters, a question mark for one, a group for one that it has. A `[` may stand
    for itself, also where it begins a group.
   */
  predicate Means(pat: string, s: string)
    decreases |pat| + |s|
  {
    if pat == "" then s == ""
    else if pat[0] == '*' then Means(pat[1..], s) || (s != "" && Means(pat, s[1..]))
    else if s == "" then false
    else if pat[0] == '?' then Means(pat[1..], s[1..])
    else
      || (IsGroup(pat) && GroupHas(pat, s[0]) && Means(Rest(pat), s[1..]))
      || (pat[0] == s[0] && Means(pat[1..], s[1..]))
  }

  /** One element of the pattern takes one character, as the matcher takes it. */
  predicate Takes(pat: string, ch: char) {
    pat != "" && pat[0] != '*' && (pat[0] == '?' || (IsGroup(pat) && GroupHas(pat, ch)) || pat[0] == ch)
  }

  /** The pattern the matcher goes on with: after the group if the group has the character, else after one character. */
  function After(pat: string, ch: char): (r: string)
    requires pat != ""
    ensures |r| < |pat|
  {
    if pat[0] == '[' && IsGroup(pat) && GroupHas(pat, ch) then Rest(pat) else pat[1..]
  }

  /** What the matcher does with an element is something the pattern means. */
  lemma TakingIsMeant(pat: string, s: string)
    requires s != "" && Takes(pat, s[0]) && Means(After(pat, s[0]), s[1..])
    ensures Means(pat, s)
  {
    hide GroupHas, Rest;
  }

  /** A star takes any prefix. */
  lemma {:induction false} StarTakes(pat: string, s: string, k: nat)
    requires pat != "" && pat[0] == '*' && k <= |s| && Means(pat[1..], s[k..])
    ensures Means(pat, s)
    decreases k
  {
    hide IsGroup, GroupHas, Rest;
    if k > 0 {
      assert s[1..][k - 1..] == s[k..];
      StarTakes(pat, s[1..], k - 1);
    } else {
      assert s[0..] == s;
    }
  }

  lemma {:induction false} StarTook(pat: string, s: string) returns (k: nat)
    requires pat != "" && pat[0] == '*' && Means(pat, s)
    ensures k <= |s| && Means(pat[1..], s[k..])
    decreases |s|
  {
    hide IsGroup, GroupHas, Rest;
    if Means(pat[1..], s) {
      k := 0;
      assert s[0..] == s;
    } else {
      var j := StarTook(pat, s[1..]);
      k := j + 1;
      assert s[1..][j..] == s[k..];
    }
  }

  // ---------- names on which the matcher is exact ----------

  /** No `[` stands before the last character. */
  predicate Calm(name: string) {
    forall i :: 0 <= i < |name| - 1 ==> name[i] != '['
  }

  lemma CalmRest(name: string)
    requires Calm(name) && name != ""
    ensures Calm(name[1..])
  {
  }

  /** Nothing but stars matches the empty name. */
  lemma {:induction false} EmptyName(pat: string, c: nat)
    requires c < |pat| && pat[c] != '*'
    ensures !Means(pat, "")
    decreases |pat|
  {
    hide IsGroup, GroupHas, Rest;
    if pat[0] == '*' {
      EmptyName(pat[1..], c - 1);
    }
  }

  /** On a calm name an element that is not a star is taken in one way only, and the way does not depend on the name. */
  lemma OneWay(pat: string, s: string)
    requires Calm(s) && pat != "" && pat[0] != '*' && Means(pat, s)
    ensures s != "" && Takes(pat, s[0]) && Means(Rest(pat), s[1..])
  {
    hide GroupHas;
    if IsGroup(pat) && !(GroupHas(pat, s[0]) && Means(Rest(pat), s[1..])) {
      var c := Closing(pat, BodyStart(pat));
      assert |s| == 1;
      assert s[1..] == "";
      EmptyName(pat[1..], c - 1);
    }
  }

  /** The pattern after `n` elements none of which is a star; false if there are fewer. */
  predicate Leads(pat: string, n: nat, p: string) {
    if n == 0 then p == pat else pat != "" && pat[0] != '*' && Leads(Rest(pat), n - 1, p)
  }

  /** On a calm name, elements that are not stars take one character each. */
  lemma {:induction false} LeadsOn(pat: string, n: nat, p: string, s: string)
    requires Leads(pat, n, p) && Calm(s) && Means(pat, s)
    ensures n <= |s| && Means(p, s[n..])
    decreases n
  {
    hide IsGroup, GroupHas, Rest, Means;
    if n > 0 {
      OneWay(pat, s);
      CalmRest(s);
      LeadsOn(Rest(pat), n - 1, p, s[1..]);
      assert s[1..][n - 1..] == s[n..];
    } else {
      assert s[0..] == s;
    }
  }

  lemma {:induction false} LeadsFurther(pat: string, n: nat, p: string)
    requires Leads(pat, n, p) && p != "" && p[0] != '*'
    ensures Leads(pat, n + 1, Rest(p))
    decreases n
  {
    hide IsGroup, Rest;
    if n > 0 {
      LeadsFurther(Rest(pat), n - 1, p);
    } else {
      assert Leads(Rest(p), 0, Rest(p));
    }
  }

  // ---------- the matcher ----------

  /** `pcr_glob_bracket`, from the `[` at `p`. */
  method Bracket(pat: string, p: nat, ch: char) returns (ok: bool, next: nat)
    requires p < |pat| && pat[p] == '['
    ensures ok <==> IsGroup(pat[p..]) && GroupHas(pat[p..], ch)
    ensures ok ==> p < next <= |pat| && pat[next..] == Rest(pat[p..])
  {
    hide BodyHas, Closing, IsGroup, Body, Rest;
    ghost var g := pat[p..];
    GroupAt(pat, p);
    var q := p + 1;
    var neg := false;
    if q < |pat| && (pat[q] == '!' || pat[q] == '^') {
      neg := true;
      q := q + 1;
    }
    ghost var start := q;
    assert start - p == BodyStart(g);
    ghost var c := p + Closing(g, BodyStart(g));
    ClosingIs(pat, p);
    var matched, any := false, false;
    NoBody(ch);
    while q < |pat| && pat[q] != ']'
      invariant start <= q <= c <= |pat|
      invariant any <==> q > start
      invariant BodyHas(pat[start..c], ch) <==> matched || BodyHas(pat[q..c], ch)
      decreases |pat| - q
    {
      any := true;
      BodyStep(pat, q, c, ch);
      if q + 2 < |pat| && pat[q + 1] == '-' && pat[q + 2] != ']' {
        if pat[q] <= ch <= pat[q + 2] {
          matched := true;
        }
        q := q + 3;
      } else {
        if ch == pat[q] {
          matched := true;
        }
        q := q + 1;
      }
    }
    assert q == c;
    assert pat[q..c] == "";
    if !any || q == |pat| {
      return false, p;
    }
    return neg != matched, q + 1;
  }

  /** The closing bracket, by its place in the whole pattern. */
  lemma ClosingIs(pat: string, p: nat)
    requires p < |pat|
    ensures var g := pat[p..];
            var start, c := p + BodyStart(g), p + Closing(g, BodyStart(g));
            start <= c <= |pat| && (c < |pat| ==> pat[c] == ']') && forall j :: start <= j < c ==> pat[j] != ']'
  {
    var g := pat[p..];
    forall j | p + BodyStart(g) <= j < p + Closing(g, BodyStart(g))
      ensures pat[j] != ']'
    {
      assert g[j - p] == pat[j];
    }
  }

  /** The group, by places in the whole pattern. */
  lemma GroupAt(pat: string, p: nat)
    requires p < |pat| && pat[p] == '['
    ensures var g := pat[p..];
            var start, c := p + BodyStart(g), p + Closing(g, BodyStart(g));
            && (IsGroup(g) <==> start < c < |pat|)
            && (IsGroup(g) ==> Body(g) == pat[start..c] && Rest(g) == pat[c + 1..])
            && BodyStart(g) == if p + 1 < |pat| && (pat[p + 1] == '!' || pat[p + 1] == '^') then 2 else 1
  {
    hide BodyHas;
    var g := pat[p..];
    var start, c := p + BodyStart(g), p + Closing(g, BodyStart(g));
    if start < c < |pat| {
      assert g[start - p..c - p] == pat[start..c];
      assert g[c - p + 1..] == pat[c + 1..];
    }
  }

  lemma NoBody(ch: char)
    ensures !BodyHas("", ch)
  {
  }

  /** One member of the body: a range of three characters or one character. */
  lemma BodyStep(pat: string, q: nat, c: nat, ch: char)
    requires q < c <= |pat| && (c < |pat| ==> pat[c] == ']') && forall j :: q <= j < c ==> pat[j] != ']'
    ensures var range := q + 2 < |pat| && pat[q + 1] == '-' && pat[q + 2] != ']';
            && (range ==> q + 3 <= c && (BodyHas(pat[q..c], ch) <==> pat[q] <= ch <= pat[q + 2] || BodyHas(pat[q + 3..c], ch)))
            && (!range ==> (BodyHas(pat[q..c], ch) <==> pat[q] == ch || BodyHas(pat[q + 1..c], ch)))
  {
    var body := pat[q..c];
    if |body| > 2 {
      assert body[3..] == pat[q + 3..c];
      assert body[2] == pat[q + 2];
    }
    assert body[1..] == pat[q + 1..c];
  }

  predicate AllStars(pat: string) {
    forall i :: 0 <= i < |pat| ==> pat[i] == '*'
  }

  /** The places the matcher can be in: in the pattern, in the name, at the last star and where its run ends. */
  predicate Place(pat: string, name: string, star: int, ss: nat, p: nat, i: nat) {
    p <= |pat| && ss <= i <= |name| && -1 <= star < p && (star >= 0 ==> pat[star] == '*')
  }

  /** The rounds of `pcr_glob_match`. Each moves the star on, or where its run ends, or the place in the name. */
  predicate Accepts(pat: string, name: string, star: int, ss: nat, p: nat, i: nat)
    requires Place(pat, name, star, ss, p, i)
    decreases |pat| - star, |name| - ss, |name| - i
  {
    if i == |name| then AllStars(pat[p..])
    else if p < |pat| && pat[p] == '*' then Accepts(pat, name, p, i, p + 1, i)
    else if p < |pat| && Takes(pat[p..], name[i]) then
      Accepts(pat, name, star, ss, |pat| - |After(pat[p..], name[i])|, i + 1)
    else if star >= 0 then Accepts(pat, name, star, ss + 1, star + 1, ss + 1)
    else false
  }

  /** The alternatives a star still has: it takes more than it has taken so far. */
  ghost predicate Later(tail: string, name: string, ss: nat) {
    exists j :: ss < j <= |name| && Means(tail, name[j..])
  }

  lemma AfterIsTail(pat: string, p: nat, ch: char)
    requires p < |pat|
    ensures var q := |pat| - |After(pat[p..], ch)|; p < q <= |pat| && pat[q..] == After(pat[p..], ch)
  {
    hide GroupHas;
    var g := pat[p..];
    if IsGroup(g) {
      assert Rest(g) == pat[p + Closing(g, BodyStart(g)) + 1..];
    }
    assert g[1..] == pat[p + 1..];
  }

  lemma {:induction false} StarsMatchNothing(pat: string)
    ensures AllStars(pat) <==> Means(pat, "")
    decreases |pat|
  {
    hide IsGroup, GroupHas, Rest;
    if pat != "" {
      StarsMatchNothing(pat[1..]);
      assert pat == [pat[0]] + pat[1..];
    }
  }

  /** Whatever the matcher accepts from a place is meant from there, or after the star has taken more. */
  lemma {:induction false} AcceptsMeans(pat: string, name: string, star: int, ss: nat, p: nat, i: nat)
    requires Place(pat, name, star, ss, p, i) && Accepts(pat, name, star, ss, p, i)
    ensures Means(pat[p..], name[i..]) || (star >= 0 && Later(pat[star + 1..], name, ss))
    decreases |pat| - star, |name| - ss, |name| - i
  {
    hide Means, Takes, After, AllStars, Later;
    if i == |name| {
      StarsMatchNothing(pat[p..]);
      assert name[i..] == "";
    } else if p < |pat| && pat[p] == '*' {
      AcceptsMeans(pat, name, p, i, p + 1, i);
      StarGoesOn(pat[p..], name, i);
      assert pat[p..][1..] == pat[p + 1..];
    } else if p < |pat| && Takes(pat[p..], name[i]) {
      AfterIsTail(pat, p, name[i]);
      var q := |pat| - |After(pat[p..], name[i])|;
      AcceptsMeans(pat, name, star, ss, q, i + 1);
      assert name[i..][1..] == name[i + 1..];
      if Means(pat[q..], name[i + 1..]) {
        TakingIsMeant(pat[p..], name[i..]);
      }
    } else {
      AcceptsMeans(pat, name, star, ss + 1, star + 1, ss + 1);
      LaterStill(pat[star + 1..], name, ss);
    }
  }

  /** The star takes nothing more, or more. */
  lemma StarGoesOn(pat: string, name: string, i: nat)
    requires pat != "" && pat[0] == '*' && i <= |name|
    ensures Means(pat[1..], name[i..]) || Later(pat[1..], name, i) <==> Means(pat, name[i..])
  {
    hide Means;
    if Means(pat[1..], name[i..]) {
      assert name[i..][0..] == name[i..];
      StarTakes(pat, name[i..], 0);
    }
    if Later(pat[1..], name, i) {
      var j :| i < j <= |name| && Means(pat[1..], name[j..]);
      assert name[i..][j - i..] == name[j..];
      StarTakes(pat, name[i..], j - i);
    }
    if Means(pat, name[i..]) {
      var k := StarTook(pat, name[i..]);
      assert name[i..][k..] == name[i + k..];
    }
  }

  lemma LaterStill(tail: string, name: string, ss: nat)
    requires ss < |name|
    ensures Later(tail, name, ss) <==> Means(tail, name[ss + 1..]) || Later(tail, name, ss + 1)
  {
    hide Means;
    if Later(tail, name, ss) {
      var j :| ss < j <= |name| && Means(tail, name[j..]);
    }
  }

  lemma CalmSuffix(name: string, j: nat)
    requires Calm(name) && j <= |name|
    ensures Calm(name[j..])
  {
  }

  /** On a calm name an alternative of the star comes to the same place in the pattern, further on in the name. */
  lemma Catches(pat: string, name: string, star: int, ss: nat, p: nat, i: nat)
    requires Place(pat, name, star, ss, p, i) && Calm(name) && star >= 0
    requires Leads(pat[star + 1..], i - ss, pat[p..]) && Later(pat[star + 1..], name, ss)
    ensures exists k :: i < k <= |name| && Means(pat[p..], name[k..])
  {
    hide Means, Leads;
    var j :| ss < j <= |name| && Means(pat[star + 1..], name[j..]);
    CalmSuffix(name, j);
    LeadsOn(pat[star + 1..], i - ss, pat[p..], name[j..]);
    assert name[j..][i - ss..] == name[j + (i - ss)..];
  }

  /** On a calm name the matcher accepts whatever is meant from its place, or with more for the star. */
  lemma {:induction false} AcceptsAll(pat: string, name: string, star: int, ss: nat, p: nat, i: nat)
    requires Place(pat, name, star, ss, p, i) && Calm(name)
    requires star >= 0 ==> Leads(pat[star + 1..], i - ss, pat[p..])
    requires Means(pat[p..], name[i..]) || (star >= 0 && Later(pat[star + 1..], name, ss))
    ensures Accepts(pat, name, star, ss, p, i)
    decreases |pat| - star, |name| - ss, |name| - i
  {
    hide Means, Takes, After, AllStars, Later, Leads, Rest, IsGroup, GroupHas;
    CalmSuffix(name, i);
    if star >= 0 && Later(pat[star + 1..], name, ss) {
      Catches(pat, name, star, ss, p, i);
    }
    if i == |name| {
      StarsMatchNothing(pat[p..]);
      assert name[i..] == "";
    } else if p < |pat| && pat[p] == '*' {
      assert pat[p..][1..] == pat[p + 1..];
      StarReaches(pat[p..], name, i);
      LeadsNowhere(pat[p + 1..]);
      AcceptsAll(pat, name, p, i, p + 1, i);
    } else if p < |pat| && Takes(pat[p..], name[i]) {
      TakeOn(pat, name, star, ss, p, i);
      AcceptsAll(pat, name, star, ss, |pat| - |After(pat[p..], name[i])|, i + 1);
    } else {
      NothingTaken(pat[p..], name[i..]);
      LaterStill(pat[star + 1..], name, ss);
      LeadsNowhere(pat[star + 1..]);
      AcceptsAll(pat, name, star, ss + 1, star + 1, ss + 1);
    }
  }

  lemma LeadsNowhere(pat: string)
    ensures Leads(pat, 0, pat)
  {
  }

  /** What is meant further on is meant here, since the star takes what lies between. */
  lemma StarReaches(pat: string, name: string, i: nat)
    requires pat != "" && pat[0] == '*' && i <= |name|
    requires Means(pat, name[i..]) || exists k :: i < k <= |name| && Means(pat, name[k..])
    ensures Means(pat[1..], name[i..]) || Later(pat[1..], name, i)
  {
    hide Means, Later;
    if !Means(pat, name[i..]) {
      var k :| i < k <= |name| && Means(pat, name[k..]);
      var h := StarTook(pat, name[k..]);
      assert name[k..][h..] == name[k + h..];
      assert name[i..][k + h - i..] == name[k + h..];
      StarTakes(pat, name[i..], k + h - i);
    }
    StarGoesOn(pat, name, i);
  }

  lemma NothingTaken(pat: string, s: string)
    requires Calm(s) && s != "" && (pat == "" || (pat[0] != '*' && !Takes(pat, s[0])))
    ensures !Means(pat, s)
  {
    hide Takes, IsGroup, GroupHas, Rest;
    if pat != "" && Means(pat, s) {
      OneWay(pat, s);
    }
  }

  /** Taking an element keeps what is to be shown, on a calm name. */
  lemma TakeOn(pat: string, name: string, star: int, ss: nat, p: nat, i: nat)
    requires Place(pat, name, star, ss, p, i) && Calm(name) && i < |name| && p < |pat| && pat[p] != '*'
    requires Takes(pat[p..], name[i]) && (star >= 0 ==> Leads(pat[star + 1..], i - ss, pat[p..]))
    requires Means(pat[p..], name[i..]) || (star >= 0 && Later(pat[star + 1..], name, ss))
    ensures var q := |pat| - |After(pat[p..], name[i])|;
            && p < q <= |pat|
            && (star >= 0 ==> Leads(pat[star + 1..], i + 1 - ss, pat[q..]))
            && (Means(pat[q..], name[i + 1..]) || (star >= 0 && Later(pat[star + 1..], name, ss)))
  {
    hide Means, Later, Leads, GroupHas;
    var g := pat[p..];
    AfterIsTail(pat, p, name[i]);
    CalmSuffix(name, i);
    assert name[i..][1..] == name[i + 1..];
    AfterIsRest(pat, name, star, ss, p, i);
    if star >= 0 {
      LeadsFurther(pat[star + 1..], i - ss, g);
    }
    if Means(g, name[i..]) {
      OneWay(g, name[i..]);
    }
  }

  /** The matcher does not take the `[` of a group for itself when something is still to be had. */
  lemma AfterIsRest(pat: string, name: string, star: int, ss: nat, p: nat, i: nat)
    requires Place(pat, name, star, ss, p, i) && Calm(name) && i < |name| && p < |pat| && pat[p] != '*'
    requires Takes(pat[p..], name[i]) && (star >= 0 ==> Leads(pat[star + 1..], i - ss, pat[p..]))
    requires Means(pat[p..], name[i..]) || (star >= 0 && Later(pat[star + 1..], name, ss))
    ensures After(pat[p..], name[i]) == Rest(pat[p..])
  {
    hide Means, Later, Leads, GroupHas;
    var g := pat[p..];
    CalmSuffix(name, i);
    GroupNeeds(g, name[i..]);
    if IsGroup(g) && !GroupHas(g, name[i]) {
      NothingLeft(g, name, i);
      if star >= 0 && Later(pat[star + 1..], name, ss) {
        Catches(pat, name, star, ss, p, i);
      }
    }
  }

  lemma GroupNeeds(pat: string, s: string)
    requires Calm(s)
    ensures IsGroup(pat) && Means(pat, s) ==> s != "" && GroupHas(pat, s[0])
  {
    hide GroupHas;
    if IsGroup(pat) && Means(pat, s) {
      OneWay(pat, s);
      if !GroupHas(pat, s[0]) {
        var c := Closing(pat, BodyStart(pat));
        assert s[1..] == "";
        EmptyName(pat[1..], c - 1);
      }
    }
  }

  /** Past the last character there is nothing a group could take. */
  lemma NothingLeft(g: string, name: string, i: nat)
    requires i == |name| - 1 && g != "" && g[0] != '*'
    ensures !exists k :: i < k <= |name| && Means(g, name[k..])
  {
    hide Means;
    assert name[|name|..] == "";
    EmptyName(g, 0);
  }

  /** `pcr_glob_match`. */
  method GlobMatch(pat: string, name: string) returns (r: bool)
    ensures r == Accepts(pat, name, -1, 0, 0, 0)
    ensures r ==> Means(pat, name)
    ensures Calm(name) ==> r == Means(pat, name)
  {
    hide Means, IsGroup, GroupHas, Rest, Calm, AllStars;
    MatcherIsSound(pat, name);
    MatcherIsExact(pat, name);
    var p, i := 0, 0;
    var star, ss := -1, 0;
    while i < |name|
      invariant 0 <= p <= |pat| && 0 <= ss <= i <= |name| && Place(pat, name, star, ss, p, i)
      invariant Accepts(pat, name, star, ss, p, i) == Accepts(pat, name, -1, 0, 0, 0)
      decreases |pat| - star, |name| - ss, |name| - i
    {
      if p < |pat| && pat[p] == '*' {
        star, p, ss := p, p + 1, i;
        continue;
      }
      if p < |pat| {
        AfterIsTail(pat, p, name[i]);
        NotAGroup(pat[p..]);
        assert pat[p..][1..] == pat[p + 1..];
      }
      if p < |pat| && pat[p] == '?' {
        p, i := p + 1, i + 1;
        continue;
      }
      if p < |pat| && pat[p] == '[' {
        var ok, next := Bracket(pat, p, name[i]);
        if ok {
          p, i := next, i + 1;
          continue;
        }
      }
      if p < |pat| && pat[p] == name[i] {
        p, i := p + 1, i + 1;
        continue;
      }
      if star >= 0 {
        p, ss := star + 1, ss + 1;
        i := ss;
        continue;
      }
      return false;
    }
    r := Stars(pat, p);
  }

  lemma NotAGroup(pat: string)
    ensures pat != "" && pat[0] != '[' ==> !IsGroup(pat)
  {
  }

  /** The run of stars at the end. */
  method Stars(pat: string, p: nat) returns (r: bool)
    requires p <= |pat|
    ensures r == AllStars(pat[p..])
  {
    var q := p;
    while q < |pat| && pat[q] == '*'
      invariant p <= q <= |pat| && forall k :: p <= k < q ==> pat[k] == '*'
    {
      q := q + 1;
    }
    if q < |pat| {
      assert pat[p..][q - p] != '*';
    }
    return q == |pat|;
  }

  /** What the matcher accepts, the pattern means, for every name. */
  lemma MatcherIsSound(pat: string, name: string)
    ensures Accepts(pat, name, -1, 0, 0, 0) ==> Means(pat, name)
  {
    hide Means, Accepts;
    assert pat[0..] == pat && name[0..] == name;
    if Accepts(pat, name, -1, 0, 0, 0) {
      AcceptsMeans(pat, name, -1, 0, 0, 0);
    }
  }

  lemma MatcherIsExact(pat: string, name: string)
    ensures Calm(name) ==> (Accepts(pat, name, -1, 0, 0, 0) <==> Means(pat, name))
  {
    hide Means, Accepts;
    assert pat[0..] == pat && name[0..] == name;
    MatcherIsSound(pat, name);
    if Calm(name) && Means(pat, name) {
      AcceptsAll(pat, name, -1, 0, 0, 0);
    }
  }

  // ---------- where the matcher falls short ----------

  /** As many question marks. */
  function Marks(n: nat): (m: string)
    ensures |m| == n && forall i :: 0 <= i < n ==> m[i] == '?'
  {
    seq(n, _ => '?')
  }

  /**
    Against a `[` in the middle of a name: as many question marks as stand before it, and then `[*[!y]`. The matcher
    takes the `[` for a member of the group `[*[!y]`, which ends the pattern too soon. The pattern also means a
    `[` that stands for itself, anything, and a last character that is not `y`.
   */
  function Trap(k: nat, last: char): string {
    Marks(k) + TrapEnd(last)
  }

  function TrapEnd(last: char): string {
    if last == 'a' then "[*[!b]" else "[*[!a]"
  }

  lemma {:induction false} MarksTaken(pat: string, name: string, k: nat, j: nat)
    requires k <= |pat| && k <= |name| && j <= k && forall i :: 0 <= i < k ==> pat[i] == '?'
    ensures Accepts(pat, name, -1, 0, j, j) == Accepts(pat, name, -1, 0, k, k)
    decreases k - j
  {
    hide IsGroup, GroupHas, Rest;
    if j < k {
      assert pat[j..][0] == '?' && pat[j..][1..] == pat[j + 1..];
      MarksTaken(pat, name, k, j + 1);
    }
  }

  lemma {:induction false} MarksMean(k: nat, tail: string, name: string)
    requires k <= |name| && Means(tail, name[k..])
    ensures Means(Marks(k) + tail, name)
    decreases k
  {
    hide IsGroup, GroupHas, Rest;
    var pat := Marks(k) + tail;
    if k == 0 {
      assert pat == tail && name[0..] == name;
    } else {
      assert pat[1..] == Marks(k - 1) + tail;
      assert name[1..][k - 1..] == name[k..];
      MarksMean(k - 1, tail, name[1..]);
    }
  }

  /** The group at the end of the trap has `[`, and nothing follows it. */
  lemma TrapTakes(last: char)
    ensures var g := TrapEnd(last); IsGroup(g) && GroupHas(g, '[') && Rest(g) == ""
  {
    var g := TrapEnd(last);
    assert BodyStart(g) == 1;
    assert Closing(g, 5) == 5;
    assert Closing(g, 4) == 5;
    assert Closing(g, 3) == 5;
    assert Closing(g, 2) == 5;
    assert Closing(g, 1) == 5;
    var b := Body(g);
    assert b == "*[!" + [g[4]];
    assert b[1..][0] == '[';
    assert BodyHas(b[1..], '[');
    assert BodyHas(b, '[');
  }

  lemma LastGroup(last: char)
    ensures var g := TrapEnd(last)[2..]; g[0] == '[' && Means(g, [last])
  {
    var g := TrapEnd(last)[2..];
    assert g == if last == 'a' then "[!b]" else "[!a]";
    assert BodyStart(g) == 2;
    assert Closing(g, 3) == 3;
    assert Closing(g, 2) == 3;
    var b := Body(g);
    assert b == [g[2]] && b[1..] == "";
    assert !BodyHas(b, last);
    assert Rest(g) == "";
    assert [last][1..] == "";
  }

  lemma TrapMeans(v: string)
    requires v != ""
    ensures Means(TrapEnd(v[|v| - 1]), "[" + v)
  {
    hide IsGroup, GroupHas, Rest, Means;
    var last := v[|v| - 1];
    var g := TrapEnd(last);
    LastGroup(last);
    StarThen(g[1..], g[2..], v);
    ItselfThen(g, "[" + v);
    assert ("[" + v)[1..] == v;
  }

  lemma StarThen(pat: string, tail: string, v: string)
    requires pat != "" && pat[0] == '*' && pat[1..] == tail && v != "" && Means(tail, [v[|v| - 1]])
    ensures Means(pat, v)
  {
    hide IsGroup, GroupHas, Rest, Means;
    assert v[|v| - 1..] == [v[|v| - 1]];
    StarTakes(pat, v, |v| - 1);
  }

  lemma ItselfThen(pat: string, s: string)
    requires pat != "" && s != "" && pat[0] == '[' == s[0] && Means(pat[1..], s[1..])
    ensures Means(pat, s)
  {
    hide IsGroup, GroupHas, Rest;
  }

  /** The group takes the `[`, and the name goes on where the pattern ends. */
  lemma Trapped(name: string, k: nat)
    requires k < |name| - 1 && name[k] == '['
    ensures var pat := Trap(k, name[|name| - 1]); !Accepts(pat, name, -1, 0, k, k)
  {
    hide IsGroup, GroupHas, Rest, Means, BodyHas, TrapEnd;
    var last := name[|name| - 1];
    var g, pat := TrapEnd(last), Trap(k, last);
    assert pat[k..] == g;
    TrapTakes(last);
    GroupFirst(g);
    AfterIsTail(pat, k, '[');
    assert !Accepts(pat, name, -1, 0, |pat|, k + 1);
  }

  lemma GroupFirst(g: string)
    ensures IsGroup(g) ==> g != "" && g[0] == '['
  {
  }

  /** Every name with a `[` before its last character has a pattern that means it and that the matcher refuses. */
  lemma FallsShort(name: string, k: nat)
    requires k < |name| - 1 && name[k] == '['
    ensures var pat := Trap(k, name[|name| - 1]);
            Means(pat, name) && !Accepts(pat, name, -1, 0, 0, 0)
  {
    hide Means, Accepts, TrapEnd;
    var last := name[|name| - 1];
    var v := name[k + 1..];
    assert name[k..] == "[" + v;
    TrapMeans(v);
    MarksMean(k, TrapEnd(last), name);
    MarksTaken(Trap(k, last), name, k, 0);
    Trapped(name, k);
  }

  /** The matcher is right about every pattern on exactly the names without a `[` before their last character. */
  lemma ExactNames(name: string)
    ensures (forall pat :: Accepts(pat, name, -1, 0, 0, 0) <==> Means(pat, name)) <==> Calm(name)
  {
    hide Means, Accepts, Trap;
    forall pat
      ensures Calm(name) ==> (Accepts(pat, name, -1, 0, 0, 0) <==> Means(pat, name))
    {
      MatcherIsExact(pat, name);
    }
    if !Calm(name) {
      var k :| 0 <= k < |name| - 1 && name[k] == '[';
      FallsShort(name, k);
    }
  }
}
