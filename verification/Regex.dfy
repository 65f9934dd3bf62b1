/**
 The pattern matcher of user/grep.c, against a denotational semantics of its patterns.
 Patterns and texts are strings without their terminating NUL.
 */
module Regex {

  // ---------- What a pattern means ----------

  /** One character, or any number of them; '.' stands for every character. */
  datatype Atom = One(c: char) | Many(c: char)

  /** A pattern without its leading '^': its atoms, and whether a final '$' ties it to the end of the text. */
  datatype Pattern = Pattern(atoms: seq<Atom>, toEnd: bool)

  predicate Fits(c: char, x: char) { c == '.' || c == x }

  predicate AllFit(c: char, u: string) { forall k :: 0 <= k < |u| ==> Fits(c, u[k]) }

  function Parse(re: string): Pattern {
    if re == "" then Pattern([], false)
    else if |re| > 1 && re[1] == '*' then
      var p := Parse(re[2..]);
      p.(atoms := [Many(re[0])] + p.atoms)
    else if re == "$" then Pattern([], true)
    else
      var p := Parse(re[1..]);
      p.(atoms := [One(re[0])] + p.atoms)
  }

  /** The language of a list of atoms: concatenations of a word of each. */
  ghost predicate InLanguage(w: string, atoms: seq<Atom>)
    decreases |atoms|
  {
    if atoms == [] then w == ""
    else if atoms[0].One? then w != "" && Fits(atoms[0].c, w[0]) && InLanguage(w[1..], atoms[1..])
    else exists k :: 0 <= k <= |w| && AllFit(atoms[0].c, w[..k]) && InLanguage(w[k..], atoms[1..])
  }

  /** Some prefix of the text, the whole of it if tied to the end, is in the language. */
  ghost predicate Here(p: Pattern, text: string) {
    exists j :: 0 <= j <= |text| && InLanguage(text[..j], p.atoms) && (p.toEnd ==> j == |text|)
  }

  /** Some slice of the text is in the language of re; '^' ties it to the start, '$' to the end. */
  ghost predicate Denotes(re: string, text: string) {
    var anchored := re != "" && re[0] == '^';
    var p := Parse(if anchored then re[1..] else re);
    exists i, j :: 0 <= i <= j <= |text| && InLanguage(text[i..j], p.atoms)
      && (anchored ==> i == 0) && (p.toEnd ==> j == |text|)
  }

  // ---------- What the characters of a pattern mean ----------

  /** No character that has a meaning of its own besides '.'. */
  predicate Plain(re: string) { forall k :: 0 <= k < |re| ==> re[k] != '*' && re[k] != '^' && re[k] != '$' }

  /** The text at i is re, with any character for each '.'. */
  predicate Agrees(re: string, text: string, i: int) {
    0 <= i && i + |re| <= |text| && forall k :: 0 <= k < |re| ==> re[k] == '.' || re[k] == text[i + k]
  }

  /** A plain pattern stands for the words that agree with it, also before a '$'. */
  lemma {:induction false} PlainLanguage(re: string, w: string)
    requires Plain(re)
    ensures !Parse(re).toEnd && Parse(re + "$") == Pattern(Parse(re).atoms, true)
    ensures InLanguage(w, Parse(re).atoms) <==> |w| == |re| && Agrees(re, w, 0)
    decreases |re|
  {
    if re == "" {
      assert re + "$" == "$";
    } else {
      assert (re + "$")[1..] == re[1..] + "$";
      PlainLanguage(re[1..], if w == "" then "" else w[1..]);
      var p := Parse(re[1..]);
      assert Parse(re) == p.(atoms := [One(re[0])] + p.atoms);
      assert ([One(re[0])] + p.atoms)[1..] == p.atoms;
      if w != "" { AgreesNext(re, w, 0); }
    }
  }

  lemma AgreesNext(re: string, w: string, i: nat)
    requires re != "" && w != "" && i < |w|
    ensures Agrees(re, w, i) <==> (re[0] == '.' || re[0] == w[i]) && Agrees(re[1..], w[1..], i)
  {
    if Agrees(re[1..], w[1..], i) && (re[0] == '.' || re[0] == w[i]) {
      forall k | 0 <= k < |re| ensures re[k] == '.' || re[k] == w[i + k] {
        if k > 0 { assert re[1..][k - 1] == '.' || re[1..][k - 1] == w[1..][i + k - 1]; }
      }
    }
  }

  /** A word at a place of the text. */
  lemma AgreesAt(re: string, text: string, i: nat, j: nat)
    requires i <= j <= |text|
    ensures |text[i..j]| == |re| && Agrees(re, text[i..j], 0) <==> j == i + |re| && Agrees(re, text, i)
  {
    if |text[i..j]| == |re| && Agrees(re, text[i..j], 0) {
      forall k | 0 <= k < |re| ensures re[k] == '.' || re[k] == text[i + k] { assert text[i..j][k] == text[i + k]; }
    }
  }

  /** Re is the whole pattern s but for its anchors. */
  lemma PlainDenotes(re: string, s: string, text: string, anchored: bool, toEnd: bool)
    requires Plain(re) && s == (if anchored then "^" else "") + re + (if toEnd then "$" else "")
    ensures Denotes(s, text) <==>
              exists i :: Agrees(re, text, i) && (anchored ==> i == 0) && (toEnd ==> i + |re| == |text|)
  {
    hide Agrees, InLanguage, Parse;
    var body := re + if toEnd then "$" else "";
    PlainLanguage(re, "");
    assert (s != "" && s[0] == '^') == anchored;
    assert anchored ==> s[1..] == body;
    assert !anchored ==> s == body;
    assert body == if toEnd then re + "$" else re;
    var p := Parse(body);
    AgreesWithin(re, text);
    forall i: nat, j: nat | i <= j <= |text|
      ensures InLanguage(text[i..j], p.atoms) <==> j == i + |re| && Agrees(re, text, i)
    {
      PlainLanguage(re, text[i..j]);
      AgreesAt(re, text, i, j);
    }
    if i :| Agrees(re, text, i) && (anchored ==> i == 0) && (toEnd ==> i + |re| == |text|) {
      assert InLanguage(text[i..i + |re|], p.atoms);
    }
  }

  /**
   What match finds: a plain pattern anywhere in the text, at its start after '^', at its end
   before '$', and as the whole text between the two.
   */
  lemma PlainMatches(re: string, text: string)
    requires Plain(re)
    ensures Denotes(re, text) <==> exists i :: Agrees(re, text, i)
    ensures Denotes("^" + re, text) <==> Agrees(re, text, 0)
    ensures Denotes(re + "$", text) <==> Agrees(re, text, |text| - |re|)
    ensures Denotes("^" + re + "$", text) <==> |text| == |re| && Agrees(re, text, 0)
  {
    hide Agrees, Denotes;
    assert "" + re + "" == re && "^" + re + "" == "^" + re && "" + re + "$" == re + "$";
    PlainDenotes(re, re, text, false, false);
    PlainDenotes(re, "^" + re, text, true, false);
    PlainDenotes(re, re + "$", text, false, true);
    PlainDenotes(re, "^" + re + "$", text, true, true);
    assert forall i {:trigger Agrees(re, text, i)} :: i + |re| == |text| <==> i == |text| - |re|;
  }

  lemma AgreesWithin(re: string, text: string)
    ensures forall i :: Agrees(re, text, i) ==> 0 <= i && i + |re| <= |text|
  {
  }

  /** A starred character takes any number of it, or of anything for '.', and the rest follows. */
  lemma StarMatches(c: char, re: string, text: string)
    requires Plain(re)
    ensures Denotes("^" + [c, '*'] + re, text) <==>
              exists i :: Agrees(re, text, i) && forall k :: 0 <= k < i ==> c == '.' || text[k] == c
  {
    var all, q := "^" + [c, '*'] + re, Parse(re);
    assert all[1..] == [c, '*'] + re && ([c, '*'] + re)[2..] == re;
    var p := q.(atoms := [Many(c)] + q.atoms);
    assert Parse(all[1..]) == p;
    PlainLanguage(re, "");
    HereMany(c, q, text);
    assert Denotes(all, text) <==> Here(p, text) by {
      assert forall j :: 0 <= j <= |text| ==> text[0..j] == text[..j];
    }
    forall i: nat
      ensures StarFrom(c, q, text, i) <==> Agrees(re, text, i) && forall k :: 0 <= k < i ==> c == '.' || text[k] == c
    {
      PlainFrom(c, re, text, i);
    }
  }

  lemma PlainFrom(c: char, re: string, text: string, i: nat)
    requires Plain(re)
    ensures StarFrom(c, Parse(re), text, i) <==>
              Agrees(re, text, i) && forall k :: 0 <= k < i ==> c == '.' || text[k] == c
  {
    hide Parse, InLanguage, Agrees;
    AgreesWithin(re, text);
    if i <= |text| {
      PlainLanguage(re, "");
      forall j | 0 <= j <= |text| - i
        ensures InLanguage(text[i..][..j], Parse(re).atoms) <==> j == |re| && Agrees(re, text, i)
      {
        assert text[i..][..j] == text[i..i + j];
        PlainLanguage(re, text[i..i + j]);
        AgreesAt(re, text, i, i + j);
      }
      FitsAll(c, text[..i]);
      if Agrees(re, text, i) { assert InLanguage(text[i..][..|re|], Parse(re).atoms); }
    }
  }

  lemma FitsAll(c: char, u: string)
    ensures AllFit(c, u) <==> forall k :: 0 <= k < |u| ==> c == '.' || u[k] == c
  {
    if forall k :: 0 <= k < |u| ==> c == '.' || u[k] == c {
      forall k | 0 <= k < |u| ensures Fits(c, u[k]) { assert c == '.' || u[k] == c; }
    }
  }

  // ---------- Prefix matching, one atom at a time ----------

  lemma HereOne(c: char, p: Pattern, text: string)
    ensures Here(p.(atoms := [One(c)] + p.atoms), text) <==>
      text != "" && Fits(c, text[0]) && Here(p, text[1..])
  {
    var q := p.(atoms := [One(c)] + p.atoms);
    assert q.atoms[1..] == p.atoms;
    if Here(q, text) {
      var j :| 0 <= j <= |text| && InLanguage(text[..j], q.atoms) && (p.toEnd ==> j == |text|);
      assert text[..j][1..] == text[1..][..j - 1];
    }
    if text != "" && Fits(c, text[0]) && Here(p, text[1..]) {
      var j :| 0 <= j <= |text[1..]| && InLanguage(text[1..][..j], p.atoms) && (p.toEnd ==> j == |text[1..]|);
      assert text[..j + 1][1..] == text[1..][..j];
    }
  }

  /** The atom c* takes the first k characters and the rest matches from there. */
  ghost predicate StarFrom(c: char, p: Pattern, text: string, k: nat) {
    k <= |text| && AllFit(c, text[..k]) && Here(p, text[k..])
  }

  ghost predicate StarHere(c: char, p: Pattern, text: string) { exists k: nat :: StarFrom(c, p, text, k) }

  lemma HereMany(c: char, p: Pattern, text: string)
    ensures Here(p.(atoms := [Many(c)] + p.atoms), text) <==> StarHere(c, p, text)
  {
    var q := p.(atoms := [Many(c)] + p.atoms);
    assert q.atoms[1..] == p.atoms;
    if Here(q, text) {
      var j :| 0 <= j <= |text| && InLanguage(text[..j], q.atoms) && (p.toEnd ==> j == |text|);
      var k :| 0 <= k <= j && AllFit(c, text[..j][..k]) && InLanguage(text[..j][k..], p.atoms);
      assert text[..j][..k] == text[..k] && text[..j][k..] == text[k..][..j - k];
      assert StarFrom(c, p, text, k);
    }
    if k: nat :| StarFrom(c, p, text, k) {
      var j :| 0 <= j <= |text[k..]| && InLanguage(text[k..][..j], p.atoms) && (p.toEnd ==> j == |text[k..]|);
      assert text[..j + k][..k] == text[..k] && text[..j + k][k..] == text[k..][..j];
      assert InLanguage(text[..j + k], q.atoms);
    }
  }

  // ---------- The matcher ----------

  method MatchHere(re: string, text: string) returns (r: bool)
    ensures r <==> Here(Parse(re), text)
    decreases |re|, 0
  {
    if re == "" {
      assert InLanguage(text[..0], []);
      return true;
    }
    if |re| > 1 && re[1] == '*' {
      var p := Parse(re[2..]);
      assert Parse(re) == p.(atoms := [Many(re[0])] + p.atoms);
      HereMany(re[0], p, text);
      r := MatchStar(re[0], re[2..], text);
      return;
    }
    if re[0] == '$' && |re| == 1 {
      assert text == "" ==> InLanguage(text[..0], []);
      return text == "";
    }
    HereOne(re[0], Parse(re[1..]), text);
    if text != "" && (re[0] == '.' || re[0] == text[0]) {
      r := MatchHere(re[1..], text[1..]);
      return;
    }
    return false;
  }

  /** Tries the rest of the pattern after each run of characters that c* can take. */
  method MatchStar(c: char, re: string, text: string) returns (r: bool)
    ensures r <==> StarHere(c, Parse(re), text)
    decreases |re|, 1
  {
    var t := text;
    ghost var k := 0;
    while true
      invariant 0 <= k <= |text| && t == text[k..] && AllFit(c, text[..k])
      invariant forall i :: 0 <= i < k ==> !StarFrom(c, Parse(re), text, i)
      decreases |t|
    {
      var b := MatchHere(re, t);
      if b {
        assert StarFrom(c, Parse(re), text, k);
        return true;
      }
      if t == "" || !(t[0] == c || c == '.') {
        forall i: nat ensures !StarFrom(c, Parse(re), text, i) {
          if k < i <= |text| { assert text[..i][k] == text[k]; }
        }
        return false;
      }
      assert text[..k + 1] == text[..k] + [t[0]];
      t, k := t[1..], k + 1;
    }
  }

  lemma DenotesHere(re: string, text: string)
    requires re == "" || re[0] != '^'
    ensures Denotes(re, text) <==> exists i :: 0 <= i <= |text| && Here(Parse(re), text[i..])
  {
    var p := Parse(re);
    if Denotes(re, text) {
      var i, j :| 0 <= i <= j <= |text| && InLanguage(text[i..j], p.atoms) && (p.toEnd ==> j == |text|);
      assert text[i..j] == text[i..][..j - i];
      assert Here(p, text[i..]);
    }
    if i :| 0 <= i <= |text| && Here(p, text[i..]) {
      var j :| 0 <= j <= |text[i..]| && InLanguage(text[i..][..j], p.atoms) && (p.toEnd ==> j == |text[i..]|);
      assert text[i..i + j] == text[i..][..j];
    }
  }

  method Match(re: string, text: string) returns (r: bool)
    ensures r <==> Denotes(re, text)
  {
    if re != "" && re[0] == '^' {
      r := MatchHere(re[1..], text);
      assert forall j :: 0 <= j <= |text| ==> text[0..j] == text[..j];
      return;
    }
    DenotesHere(re, text);
    var t := text;
    ghost var k := 0;
    while true
      invariant 0 <= k <= |text| && t == text[k..]
      invariant forall i :: 0 <= i < k ==> !Here(Parse(re), text[i..])
      decreases |t|
    {
      var b := MatchHere(re, t);
      if b {
        return true;
      }
      if t == "" {
        assert k == |text|;
        return false;
      }
      t, k := t[1..], k + 1;
    }
  }
}
