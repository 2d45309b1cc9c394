/** The topic matcher of mqtt_client_common.c, a walk of two pointers over characters, against the
    level by level matching of section 4.7.1 of MQTT 3.1.1. */
module TopicMatch {
  type text = seq<char>

  // ---------- section 4.7.1: levels ----------

  datatype Level = Plus | Hash | Name(text: text)

  ghost predicate Plain(t: text) { '/' !in t && '+' !in t && '#' !in t }

  /** A topic filter: at least one level, # only as the last. */
  ghost predicate ValidFilter(f: seq<Level>) {
    |f| > 0 && (forall k :: 0 <= k < |f| ==> (f[k].Name? ==> Plain(f[k].text)) && (f[k].Hash? ==> k == |f| - 1))
  }

  /** A topic name: at least one level, no wildcards. */
  ghost predicate ValidName(n: seq<text>) { |n| > 0 && forall k :: 0 <= k < |n| ==> Plain(n[k]) }

  predicate LevelOk(f: Level, n: text) { f.Plus? || (f.Name? && f.text == n) }

  ghost predicate FirstMatch(f: seq<Level>, n: seq<text>, k: nat)
    requires k <= |f| && k <= |n|
  {
    forall i :: 0 <= i < k ==> LevelOk(f[i], n[i])
  }

  /** + matches one level, whatever is in it; # matches the parent and any levels below it. */
  ghost predicate Matches(f: seq<Level>, n: seq<text>)
    requires |f| > 0
  {
    var m := |f| - 1;
    if f[m].Hash? then |n| >= m && FirstMatch(f, n, m) else |n| == m + 1 && FirstMatch(f, n, m + 1)
  }

  /** The name ends in an empty level that falls on a +; the rest of the filter is not looked at. */
  ghost predicate StopsAtPlus(f: seq<Level>, n: seq<text>) {
    0 < |n| < |f| && f[|n| - 1].Plus? && n[|n| - 1] == [] && FirstMatch(f, n, |n|)
  }

  /** The level before the # is only the beginning of the name's level, as in a/# and ab. */
  ghost predicate BeginsAtHash(f: seq<Level>, n: seq<text>) {
    var m := |f| - 2;
    && 0 <= m < |n| && f[m + 1].Hash? && f[m].Name? && f[m].text < n[m] && FirstMatch(f, n, m)
  }

  function Symbol(l: Level): text {
    match l case Plus => "+" case Hash => "#" case Name(t) => t
  }

  function Print(f: seq<Level>): text {
    if |f| == 0 then [] else if |f| == 1 then Symbol(f[0]) else Symbol(f[0]) + "/" + Print(f[1..])
  }

  function Join(n: seq<text>): text {
    if |n| == 0 then [] else if |n| == 1 then n[0] else n[0] + "/" + Join(n[1..])
  }

  /** The levels of a text. */
  function Split(t: text): (n: seq<text>)
    ensures |n| > 0
  {
    if t == [] then [[]]
    else
      var rest := Split(t[1..]);
      if t[0] == '/' then [[]] + rest else [[t[0]] + rest[0]] + rest[1..]
  }

  /** Every text without wildcards is a name, and its levels are the ones it splits into. */
  lemma {:induction false} SplitJoins(t: text)
    requires '+' !in t && '#' !in t
    ensures ValidName(Split(t)) && Join(Split(t)) == t
  {
    if t != [] {
      SplitJoins(t[1..]);
      var rest, n := Split(t[1..]), Split(t);
      if t[0] == '/' {
        assert n[1..] == rest;
      } else {
        assert n[1..] == rest[1..];
        assert Join(n) == [t[0]] + Join(rest);
      }
    }
  }

  // ---------- the walk ----------

  /** The verdict where the walk ends before the filter does; slash tells whether the character
      before the current one of the name is a separator. */
  predicate Stop(f: text, slash: bool)
    requires f != []
  {
    f[0] == '#' || (|f| > 1 && f[1] == '#') || (f[0] == '+' && slash)
  }

  /** The end of the level that begins with n. */
  function LevelEnd(n: text): (k: nat)
    ensures k <= |n|
  {
    if n == [] || n[0] == '/' then 0 else 1 + LevelEnd(n[1..])
  }

  /** The walk over what is left of filter and name. */
  predicate Walk(f: text, n: text, slash: bool)
    decreases |f|
  {
    if f == [] then n == []
    else if n == [] then Stop(f, slash)
    else if f[0] == '+' && n[0] == '/' then Walk(f[1..], n, slash)
    else if n[0] == '/' && f[0] != '/' then Stop(f, slash)
    else if f[0] != '+' && f[0] != '#' && f[0] != n[0] then Stop(f, slash)
    else if f[0] == '+' then Walk(f[1..], n[LevelEnd(n)..], false)
    else if f[0] == '#' then Walk(f[1..], [], n[|n| - 1] == '/')
    else Walk(f[1..], n[1..], n[0] == '/')
  }

  lemma LevelEndAt(n: text, k: nat)
    requires k <= |n| && '/' !in n[..k] && (k < |n| ==> n[k] == '/')
    ensures LevelEnd(n) == k
    decreases k
  {
    if k > 0 {
      assert n[..k][0] == n[0] && n[..k][1..] == n[1..][..k - 1];
      LevelEndAt(n[1..], k - 1);
    }
  }

  // One round of the walk at character i of the filter and j of the name.
  lemma Turn(filter: text, name: text, i: nat, j: nat, slash: bool)
    requires i < |filter| && j < |name|
    ensures var f, n := filter[i], name[j];
      Walk(filter[i..], name[j..], slash) ==
        if f == '+' && n == '/' then Walk(filter[i + 1..], name[j..], slash)
        else if (n == '/' && f != '/') || (f != '+' && f != '#' && f != n) then Stop(filter[i..], slash)
        else if f == '+' then Walk(filter[i + 1..], name[j + LevelEnd(name[j..])..], false)
        else if f == '#' then Walk(filter[i + 1..], name[|name|..], name[|name| - 1] == '/')
        else Walk(filter[i + 1..], name[j + 1..], n == '/')
  {
    assert filter[i..][1..] == filter[i + 1..] && name[j..][1..] == name[j + 1..];
    var k := LevelEnd(name[j..]);
    assert name[j..][k..] == name[j + k..];
    assert name[|name|..] == [];
  }

  /** The inner loop of a +: from its first character to the last of the level. */
  method LastOfLevel(name: text, start: nat) returns (curn: nat)
    requires start < |name| && name[start] != '/'
    ensures start <= curn < |name| && curn + 1 == start + LevelEnd(name[start..]) && name[curn] != '/'
  {
    curn := start;
    var next := curn + 1;
    while next < |name| && name[next] != '/'
      invariant start <= curn < |name| && next == curn + 1 && '/' !in name[start..next]
      decreases |name| - next
    {
      curn := curn + 1;
      next := curn + 1;
    }
    assert name[start..][..next - start] == name[start..next];
    LevelEndAt(name[start..], next - start);
    assert name[start..next][curn - start] == name[curn];
  }

  /** _is_topic_matched. */
  method IsTopicMatched(filter: text, name: text) returns (matched: bool)
    requires name != []
    ensures matched <==> Walk(filter, name, false)
  {
    hide Walk, LevelEnd;
    var curf, curn, end := 0, 0, |name|;
    assert filter[0..] == filter && name[0..] == name;
    while curf < |filter| && curn < end
      invariant curf <= |filter| && curn <= end
      invariant Walk(filter, name, false) == Walk(filter[curf..], name[curn..], curn > 0 && name[curn - 1] == '/')
      decreases |filter| - curf
    {
      Turn(filter, name, curf, curn, curn > 0 && name[curn - 1] == '/');
      if filter[curf] == '+' && name[curn] == '/' {
        curf := curf + 1;
        continue;
      }
      if name[curn] == '/' && filter[curf] != '/' { break; }
      if filter[curf] != '+' && filter[curf] != '#' && filter[curf] != name[curn] { break; }
      if filter[curf] == '+' {
        curn := LastOfLevel(name, curn);
      } else if filter[curf] == '#' {
        curn := end - 1;
      }
      curf, curn := curf + 1, curn + 1;
    }
    Over(filter, name, curf, curn, curn > 0 && name[curn - 1] == '/');
    if curf == |filter| {
      matched := curn == end;
    } else {
      // on a + the name is used up here, so that there is a character before the current one
      matched := filter[curf] == '#' || (curf + 1 < |filter| && filter[curf + 1] == '#')
        || (filter[curf] == '+' && curn > 0 && name[curn - 1] == '/');
    }
  }

  lemma Over(filter: text, name: text, i: nat, j: nat, slash: bool)
    requires i <= |filter| && j <= |name|
    ensures i == |filter| ==> (Walk(filter[i..], name[j..], slash) <==> j == |name|)
    ensures i < |filter| && j == |name| ==> Walk(filter[i..], name[j..], slash) == Stop(filter[i..], slash)
    ensures i < |filter| ==>
      (Stop(filter[i..], slash) <==>
         filter[i] == '#' || (i + 1 < |filter| && filter[i + 1] == '#') || (filter[i] == '+' && slash))
  {}

  // ---------- the walk, level by level ----------

  // A literal level against a level of the name.
  lemma {:induction false} WalkLiteral(t: text, g: text, level: text, h: text, slash: bool)
    requires Plain(t) && Plain(level) && (g != [] ==> g[0] == '/') && (h != [] ==> h[0] == '/')
    ensures t == level ==> Walk(t + g, level + h, slash) == Walk(g, h, slash && t == [])
    ensures t < level ==> (Walk(t + g, level + h, slash) <==> |g| > 1 && g[1] == '#')
    ensures !(t <= level) ==> !Walk(t + g, level + h, slash)
  {
    if t == [] {
      assert t + g == g;
      if level == [] { assert level + h == h; } else { assert (level + h)[0] == level[0]; }
    } else {
      var f, n := t + g, level + h;
      assert f[1..] == t[1..] + g && f[0] == t[0] && (|f| > 1 ==> f[1] == if |t| > 1 then t[1] else g[0]);
      if level != [] && level[0] == t[0] {
        assert n[1..] == level[1..] + h && n[0] == level[0];
        WalkLiteral(t[1..], g, level[1..], h, false);
        assert t <= level <==> t[1..] <= level[1..];
      } else {
        assert level + h == [] || (level + h)[0] != t[0];
      }
    }
  }

  // A + against a level of the name.
  lemma WalkPlus(g: text, level: text, h: text, slash: bool)
    requires Plain(level) && (g != [] ==> g[0] == '/') && (h != [] ==> h[0] == '/')
    ensures level + h == [] ==> Walk("+" + g, level + h, slash) == (slash || (g != [] && g[0] == '#'))
    ensures level == [] && h != [] ==> Walk("+" + g, level + h, slash) == Walk(g, h, slash)
    ensures level != [] ==> Walk("+" + g, level + h, slash) == Walk(g, h, false)
  {
    var f, n := "+" + g, level + h;
    assert f[1..] == g && f[0] == '+';
    if level == [] {
      assert n == h;
    } else {
      assert n[..|level|] == level && n[|level|..] == h && n[0] == level[0];
      LevelEndAt(n, |level|);
    }
  }

  // What a level of the filter leaves to the rest.
  lemma WalkRest(f: seq<Level>, n: seq<text>, slash: bool)
    requires ValidFilter(f) && |n| > 0
    ensures var g, h := (if |f| == 1 then "" else "/" + Print(f[1..])), (if |n| == 1 then "" else "/" + Join(n[1..]));
      && Print(f) == Symbol(f[0]) + g && Join(n) == n[0] + h
      && (Walk(g, h, slash) <==>
            if |n| == 1 then |f| == 1 || f[1].Hash? else |f| > 1 && Walk(Print(f[1..]), Join(n[1..]), true))
  {
    hide Walk, LevelEnd;
    var g, h := if |f| == 1 then "" else "/" + Print(f[1..]), if |n| == 1 then "" else "/" + Join(n[1..]);
    assert Symbol(f[0]) + "" == Symbol(f[0]) && n[0] + "" == n[0];
    assert Symbol(f[0]) + "/" + Print(f[1..]) == Symbol(f[0]) + ("/" + Print(f[1..]));
    assert n[0] + "/" + Join(n[1..]) == n[0] + ("/" + Join(n[1..]));
    if |f| > 1 { PrintFirst(f[1..]); }
    WalkOne(g, h, slash);
    if |f| > 1 { assert g[1..] == Print(f[1..]) && (|g| > 1 ==> g[1] == Print(f[1..])[0]); }
    if |n| > 1 { assert h[1..] == Join(n[1..]); }
  }

  lemma WalkOne(g: text, h: text, slash: bool)
    requires (g != [] ==> g[0] == '/') && (h != [] ==> h[0] == '/')
    ensures Walk(g, h, slash) <==>
      if h == [] then g == [] || (|g| > 1 && g[1] == '#') else g != [] && Walk(g[1..], h[1..], true)
  {}

  lemma PrintFirst(f: seq<Level>)
    requires |f| > 0 && forall k :: 0 <= k < |f| ==> f[k].Name? ==> Plain(f[k].text)
    ensures (Print(f) != [] && Print(f)[0] == '#') <==> f[0].Hash?
  {
    var s := Symbol(f[0]);
    if s != [] { assert Print(f)[0] == s[0]; }
  }

  /** One level of the walk: slash is false only at the very beginning. */
  lemma WalkLevel(f: seq<Level>, n: seq<text>, slash: bool)
    requires ValidFilter(f) && ValidName(n) && (slash || n != [[]])
    ensures Walk(Print(f), Join(n), slash) <==>
      if f[0].Hash? then true
      else if f[0].Plus? && n == [[]] then true
      else if LevelOk(f[0], n[0]) then
        (if |n| == 1 then |f| == 1 || f[1].Hash? else |f| > 1 && Walk(Print(f[1..]), Join(n[1..]), true))
      else f[0].Name? && f[0].text < n[0] && |f| > 1 && f[1].Hash?
  {
    hide Walk, Print, Join, LevelEnd;
    var g, h := if |f| == 1 then "" else "/" + Print(f[1..]), if |n| == 1 then "" else "/" + Join(n[1..]);
    WalkRest(f, n, slash);
    WalkRest(f, n, false);
    if f[0].Hash? {
      assert Print(f) == "#";
      WalkHash(Join(n), slash);
    } else if f[0].Plus? {
      WalkPlus(g, n[0], h, slash);
    } else {
      WalkLiteral(f[0].text, g, n[0], h, slash);
      WalkRest(f, n, slash && f[0].text == []);
      if |f| > 1 {
        PrintFirst(f[1..]);
        assert |g| > 1 ==> g[1] == Print(f[1..])[0];
      }
    }
  }

  lemma WalkHash(n: text, slash: bool)
    ensures Walk("#", n, slash)
  {
    assert "#"[1..] == "";
  }

  lemma FirstMatchShift(f: seq<Level>, n: seq<text>, k: nat)
    requires 0 < k <= |f| && k <= |n|
    ensures FirstMatch(f, n, k) <==> LevelOk(f[0], n[0]) && FirstMatch(f[1..], n[1..], k - 1)
  {
    if LevelOk(f[0], n[0]) && FirstMatch(f[1..], n[1..], k - 1) {
      forall i | 0 <= i < k ensures LevelOk(f[i], n[i]) {
        if i > 0 { assert LevelOk(f[1..][i - 1], n[1..][i - 1]); }
      }
    }
    if FirstMatch(f, n, k) {
      forall i | 0 <= i < k - 1 ensures LevelOk(f[1..][i], n[1..][i]) { assert LevelOk(f[i + 1], n[i + 1]); }
    }
  }

  lemma {:induction false} WalkMeans(f: seq<Level>, n: seq<text>, slash: bool)
    requires ValidFilter(f) && ValidName(n) && (slash || n != [[]])
    ensures Walk(Print(f), Join(n), slash) <==> Matches(f, n) || StopsAtPlus(f, n) || BeginsAtHash(f, n)
  {
    hide Walk, Print, Join, LevelEnd, Plain;
    WalkLevel(f, n, slash);
    if |f| > 1 && |n| > 1 && !f[0].Hash? && LevelOk(f[0], n[0]) {
      WalkMeans(f[1..], n[1..], true);
      Shifted(f, n);
    } else if !f[0].Hash? {
      Last(f, n);
    }
  }

  lemma Shifted(f: seq<Level>, n: seq<text>)
    requires |f| > 1 && |n| > 1 && LevelOk(f[0], n[0])
    ensures Matches(f, n) <==> Matches(f[1..], n[1..])
    ensures StopsAtPlus(f, n) <==> StopsAtPlus(f[1..], n[1..])
    ensures BeginsAtHash(f, n) <==> BeginsAtHash(f[1..], n[1..])
  {
    hide FirstMatch;
    if |f| <= |n| { FirstMatchShift(f, n, |f|); }
    if |f| - 1 <= |n| { FirstMatchShift(f, n, |f| - 1); }
    if 0 < |f| - 2 <= |n| { FirstMatchShift(f, n, |f| - 2); }
    if |n| <= |f| { FirstMatchShift(f, n, |n|); }
  }

  lemma Last(f: seq<Level>, n: seq<text>)
    requires ValidFilter(f) && |n| > 0 && !f[0].Hash? && (|f| == 1 || |n| == 1 || !LevelOk(f[0], n[0]))
    ensures Matches(f, n) || StopsAtPlus(f, n) || BeginsAtHash(f, n) <==>
      if f[0].Plus? && n == [[]] then true
      else if LevelOk(f[0], n[0]) then (if |n| == 1 then |f| == 1 || f[1].Hash? else false)
      else f[0].Name? && f[0].text < n[0] && |f| > 1 && f[1].Hash?
  {}

  /** For every valid filter and every name the walk says yes exactly when section 4.7.1 does, or the
      name ends in an empty level on a +, or the last level before # is only begun. */
  lemma MatcherExact(f: seq<Level>, name: text)
    requires ValidFilter(f) && name != [] && '+' !in name && '#' !in name
    ensures Walk(Print(f), name, false) <==>
      Matches(f, Split(name)) || StopsAtPlus(f, Split(name)) || BeginsAtHash(f, Split(name))
  {
    hide Walk, Matches, StopsAtPlus, BeginsAtHash, ValidFilter, Print;
    SplitJoins(name);
    WalkMeans(f, Split(name), false);
  }

  /** Hence no subscriber misses a message that matches its filter; */
  lemma MatchIsAccepted(f: seq<Level>, name: text)
    requires ValidFilter(f) && name != [] && '+' !in name && '#' !in name && Matches(f, Split(name))
    ensures Walk(Print(f), name, false)
  {
    MatcherExact(f, name);
  }

  /** without wildcards only the filter itself is accepted; */
  lemma PlainIsEquality(f: seq<Level>, name: text)
    requires ValidFilter(f) && name != [] && '+' !in name && '#' !in name && forall k :: 0 <= k < |f| ==> f[k].Name?
    ensures Walk(Print(f), name, false) <==> Print(f) == name
  {
    hide Walk;
    MatcherExact(f, name);
    SplitJoins(name);
    var n := Split(name);
    if Matches(f, n) { SameText(f, n); }
    if Print(f) == name { PlainMatches(f, n); }
  }

  lemma {:induction false} SameText(f: seq<Level>, n: seq<text>)
    requires |f| == |n| && FirstMatch(f, n, |f|) && forall k :: 0 <= k < |f| ==> f[k].Name?
    ensures Print(f) == Join(n)
  {
    if |f| > 0 {
      assert LevelOk(f[0], n[0]);
      if |f| > 1 {
        FirstMatchShift(f, n, |f|);
        SameText(f[1..], n[1..]);
      }
    }
  }

  lemma PlainMatches(f: seq<Level>, n: seq<text>)
    requires ValidFilter(f) && ValidName(n) && Print(f) == Join(n) && forall k :: 0 <= k < |f| ==> f[k].Name?
    ensures Matches(f, n)
  {
    var m := seq(|f|, k requires 0 <= k < |f| => f[k].text);
    assert forall k :: 0 <= k < |f| ==> LevelOk(f[k], m[k]);
    SameText(f, m);
    JoinInjective(m, n);
  }

  lemma {:induction false} JoinInjective(m: seq<text>, n: seq<text>)
    requires |m| > 0 && |n| > 0 && (forall k :: 0 <= k < |m| ==> Plain(m[k]))
    requires (forall k :: 0 <= k < |n| ==> Plain(n[k])) && Join(m) == Join(n)
    ensures m == n
  {
    var a, b := if |m| == 1 then "" else "/" + Join(m[1..]), if |n| == 1 then "" else "/" + Join(n[1..]);
    assert Join(m) == m[0] + a && Join(n) == n[0] + b by {
      assert m[0] + "" == m[0] && n[0] + "" == n[0];
      assert m[0] + "/" + Join(m[1..]) == m[0] + ("/" + Join(m[1..]));
      assert n[0] + "/" + Join(n[1..]) == n[0] + ("/" + Join(n[1..]));
    }
    FirstLevel(m[0], a, n[0], b);
    if |m| > 1 && |n| > 1 {
      assert a[1..] == Join(m[1..]) && b[1..] == Join(n[1..]);
      JoinInjective(m[1..], n[1..]);
    }
    assert m == [m[0]] + m[1..] && n == [n[0]] + n[1..];
  }

  lemma FirstLevel(x: text, a: text, y: text, b: text)
    requires Plain(x) && Plain(y) && (a != [] ==> a[0] == '/') && (b != [] ==> b[0] == '/') && x + a == y + b
    ensures x == y && a == b
  {
    if |x| < |y| { NotShorter(x, a, y, b); }
    if |y| < |x| { NotShorter(y, b, x, a); }
    assert (x + a)[..|x|] == x && (x + a)[|x|..] == a && (y + b)[..|y|] == y && (y + b)[|y|..] == b;
  }

  lemma NotShorter(x: text, a: text, y: text, b: text)
    requires |x| < |y| && Plain(y) && (a != [] ==> a[0] == '/')
    ensures x + a != y + b
  {
    assert (y + b)[|x|] == y[|x|];
    if a != [] { assert (x + a)[|x|] == a[0]; }
  }

  lemma {:induction false} SplitPlain(t: text)
    requires '/' !in t
    ensures Split(t) == [t]
  {
    if t != [] {
      SplitPlain(t[1..]);
      assert [t[0]] + t[1..] == t;
    }
  }

  /** and a/# is passed ab, which it does not match. */
  lemma HashPassesLongerLevel()
    ensures var f := [Name("a"), Hash];
      ValidFilter(f) && Print(f) == "a/#" && Walk("a/#", "ab", false) && !Matches(f, Split("ab"))
  {
    var f := [Name("a"), Hash];
    SplitPlain("ab");
    assert f[1..] == [Hash];
    assert BeginsAtHash(f, ["ab"]);
    MatcherExact(f, "ab");
    assert !Matches(f, ["ab"]) by { assert !LevelOk(f[0], "ab"); }
  }
}
