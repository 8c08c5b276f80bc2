/**
 * The URL templater: `:name` path parameters of an apiDoc URL become
 * `{name}` placeholders.
 *
 * The source compiles the URL with path-to-regexp, matches the URL against
 * its own pattern and, for every capture in order, replaces the FIRST
 * occurrence of the captured text `:name` in the current URL with
 * `{name}`. Here the pattern matcher is a tokenizer (`Parse`) that cuts
 * the URL into literal text and `:name` holes; the captures are the holes'
 * texts in order (`Tokens`). `RewriteUrl` runs the source's loop; it is
 * proved equal to `Braced`, the rewrite anchored at each hole.
 */
module UrlTemplate {
  import opened Text

  /** A `:name` parameter followed by the literal text up to the next one. */
  datatype Hole = Hole(name: string, tail: string)

  /** A URL cut into its leading literal text and its parameters. */
  datatype Template = Template(lead: string, holes: seq<Hole>)

  /** `s` holds no `:name` token: no `:` in it is followed by a word character. */
  predicate Plain(s: string) {
    forall i :: 0 <= i < |s| - 1 ==> !StartsToken(s, i)
  }

  /** A `:` at `i` followed by a word character: the start of a `:name` token. */
  predicate StartsToken(s: string, i: nat)
    requires i < |s| - 1
  {
    s[i] == ':' && IsWordChar(s[i + 1])
  }

  /** A parameter name: a non-empty run of word characters (`\w+`). */
  predicate IsName(n: string) {
    |n| > 0 && forall i :: 0 <= i < |n| ==> IsWordChar(n[i])
  }

  /** The holes are parameters with maximal names and literal tails. */
  predicate WellFormedHoles(hs: seq<Hole>) {
    forall k :: 0 <= k < |hs| ==>
      IsName(hs[k].name) && Plain(hs[k].tail) &&
      (hs[k].tail == "" || !IsWordChar(hs[k].tail[0]))
  }

  predicate WellFormed(t: Template) {
    Plain(t.lead) && WellFormedHoles(t.holes)
  }

  function SourceOf(hs: seq<Hole>): string
    decreases |hs|
  {
    if hs == [] then "" else ":" + hs[0].name + hs[0].tail + SourceOf(hs[1..])
  }

  /** The URL text a template was cut from. */
  function Source(t: Template): string {
    t.lead + SourceOf(t.holes)
  }

  function BracedOf(hs: seq<Hole>): string
    decreases |hs|
  {
    if hs == [] then "" else "{" + hs[0].name + "}" + hs[0].tail + BracedOf(hs[1..])
  }

  /** The reference rewrite: every hole, in place, written as `{name}`. */
  function Braced(t: Template): string {
    t.lead + BracedOf(t.holes)
  }

  /** The captures the pattern yields: the texts `:name` of the holes, in order. */
  function Tokens(hs: seq<Hole>): (r: seq<string>)
    ensures |r| == |hs|
    decreases |hs|
  {
    if hs == [] then [] else [":" + hs[0].name] + Tokens(hs[1..])
  }

  /** The longest prefix of `s` made of word characters. */
  function WordRun(s: string): (n: string)
    ensures |n| <= |s| && n == s[..|n|]
    ensures forall i :: 0 <= i < |n| ==> IsWordChar(n[i])
    ensures |n| == |s| || !IsWordChar(s[|n|])
    decreases |s|
  {
    if |s| == 0 || !IsWordChar(s[0]) then "" else [s[0]] + WordRun(s[1..])
  }

  /**
   * The tokenizer standing in for path-to-regexp: a `:` followed by a word
   * character starts a parameter whose name is the longest run of word
   * characters after it; everything else is literal text.
   */
  function Parse(s: string): (t: Template)
    ensures Source(t) == s
    ensures WellFormed(t)
    decreases |s|
  {
    if |s| == 0 then Template("", [])
    else if s[0] == ':' && |s| > 1 && IsWordChar(s[1]) then
      var n := WordRun(s[1..]);
      var t := Parse(s[1 + |n|..]);
      ParseParam(s, n, t);
      Template("", [Hole(n, t.lead)] + t.holes)
    else
      var t := Parse(s[1..]);
      ParseText(s, t);
      Template([s[0]] + t.lead, t.holes)
  }

  /** A name followed by a non-word character (or nothing) is the longest word run there. */
  lemma {:induction false} WordRunPrefix(n: string, r: string)
    requires forall i :: 0 <= i < |n| ==> IsWordChar(n[i])
    requires r == "" || !IsWordChar(r[0])
    ensures WordRun(n + r) == n
    decreases |n|
  {
    if n == [] {
      assert n + r == r;
    } else {
      var s := n + r;
      assert s[0] == n[0] && s[1..] == n[1..] + r;
      assert forall i :: 0 <= i < |n[1..]| ==> IsWordChar(n[1..][i]) by {
        forall i | 0 <= i < |n[1..]| ensures IsWordChar(n[1..][i]) { assert n[1..][i] == n[i + 1]; }
      }
      WordRunPrefix(n[1..], r);
      assert [n[0]] + n[1..] == n;
    }
  }

  /** The text after a hole's name starts with no word character. */
  lemma AfterName(h: Hole, hs: seq<Hole>)
    requires h.tail == "" || !IsWordChar(h.tail[0])
    ensures var r := h.tail + SourceOf(hs); r == "" || !IsWordChar(r[0])
  {
    if h.tail == "" && hs != [] {
      assert (h.tail + SourceOf(hs))[0] == SourceOf(hs)[0] == ':';
    }
  }

  /** A template with literal text in front: the tokenizer takes its first character as text. */
  lemma TextStep(t: Template)
    requires WellFormed(t) && t.lead != ""
    ensures var t' := Template(t.lead[1..], t.holes);
      WellFormed(t') && |Source(t')| < |Source(t)| &&
      Parse(Source(t)) == Template([t.lead[0]] + Parse(Source(t')).lead, Parse(Source(t')).holes)
  {
    var s := Source(t);
    var t' := Template(t.lead[1..], t.holes);
    assert s[0] == t.lead[0] && s[1..] == Source(t');
    if t.lead[0] == ':' && |s| > 1 {
      if |t.lead| > 1 {
        assert !StartsToken(t.lead, 0);
        assert s[1] == t.lead[1];
      } else {
        assert s[1] == SourceOf(t.holes)[0] == ':';
      }
    }
    assert Plain(t'.lead) by {
      forall i | 0 <= i < |t'.lead| - 1 ensures !StartsToken(t'.lead, i) {
        assert !StartsToken(t.lead, i + 1);
      }
    }
  }

  /** A `:` and a maximal name in front of `r`: the tokenizer cuts one hole there. */
  lemma ParseHole(s: string, n: string, r: string)
    requires IsName(n) && (r == "" || !IsWordChar(r[0]))
    requires s == ":" + n + r
    ensures Parse(s) == Template("", [Hole(n, Parse(r).lead)] + Parse(r).holes)
  {
    assert s[1..] == n + r && s[1] == n[0];
    WordRunPrefix(n, r);
    assert s[1 + |n|..] == r;
  }

  /** A template starting with a hole: the tokenizer takes that hole's whole name. */
  lemma HoleStep(t: Template)
    requires WellFormed(t) && t.lead == "" && t.holes != []
    ensures var h := t.holes[0];
      var t' := Template(h.tail, t.holes[1..]);
      WellFormed(t') && |Source(t')| < |Source(t)| &&
      Parse(Source(t)) == Template("", [Hole(h.name, Parse(Source(t')).lead)] + Parse(Source(t')).holes)
  {
    var h := t.holes[0];
    var rest := t.holes[1..];
    WellFormedRest(t.holes);
    SourceCons(h, rest);
    assert [h] + rest == t.holes;
    AfterName(h, rest);
    var r := h.tail + SourceOf(rest);
    ParseHole(Source(t), h.name, r);
  }

  /** The holes after the first are well formed too. */
  lemma WellFormedRest(hs: seq<Hole>)
    requires WellFormedHoles(hs) && hs != []
    ensures WellFormedHoles(hs[1..]) && IsName(hs[0].name) && Plain(hs[0].tail)
    ensures hs[0].tail == "" || !IsWordChar(hs[0].tail[0])
  {
    forall k | 0 <= k < |hs[1..]| ensures IsName(hs[1..][k].name) && Plain(hs[1..][k].tail) &&
      (hs[1..][k].tail == "" || !IsWordChar(hs[1..][k].tail[0])) {
      assert hs[1..][k] == hs[k + 1];
    }
  }

  /**
   * The tokenizer is the inverse of `Source` on well-formed templates: a
   * URL has exactly one cut into literal text and maximal `:name` holes.
   */
  lemma {:induction false} ParseSource(t: Template)
    requires WellFormed(t)
    ensures Parse(Source(t)) == t
    decreases |Source(t)|
  {
    if t.lead != "" {
      var t' := Template(t.lead[1..], t.holes);
      TextStep(t);
      ParseSource(t');
      assert [t.lead[0]] + t'.lead == t.lead;
    } else if t.holes != [] {
      var t' := Template(t.holes[0].tail, t.holes[1..]);
      HoleStep(t);
      ParseSource(t');
      assert [Hole(t.holes[0].name, t'.lead)] + t'.holes == t.holes;
    }
  }

  /** Parameter-free text followed by one trailing parameter cuts into that text and one hole. */
  lemma ParseLeadParam(p: string, n: string)
    requires Plain(p) && IsName(n)
    ensures Parse(p + (":" + n)) == Template(p, [Hole(n, "")])
  {
    var t := Template(p, [Hole(n, "")]);
    assert [Hole(n, "")][1..] == [];
    assert SourceOf(t.holes) == ":" + n + "" + SourceOf([]);
    assert Source(t) == p + (":" + n);
    ParseSource(t);
  }

  lemma SourceCons(h: Hole, hs: seq<Hole>)
    ensures SourceOf([h] + hs) == ":" + h.name + h.tail + SourceOf(hs)
  {
    assert ([h] + hs)[1..] == hs;
  }

  /** The parameter case of `Parse`: `s` starts with `:` and the name `n`. */
  lemma ParseParam(s: string, n: string, t: Template)
    requires |s| > 1 && s[0] == ':' && IsWordChar(s[1])
    requires n == WordRun(s[1..])
    requires Source(t) == s[1 + |n|..] && WellFormed(t)
    ensures Source(Template("", [Hole(n, t.lead)] + t.holes)) == s
    ensures WellFormed(Template("", [Hole(n, t.lead)] + t.holes))
  {
    ParamSource(s, n, t);
    var rest := s[1 + |n|..];
    assert IsName(n) by { assert n[0] == s[1..][0]; }
    assert t.lead == "" || !IsWordChar(t.lead[0]) by {
      if t.lead != "" {
        assert rest == t.lead + SourceOf(t.holes);
        assert t.lead[0] == rest[0] == s[1..][|n|];
      }
    }
    ParamHoles(Hole(n, t.lead), t.holes);
  }

  /** Cutting `:name` off the front of `s` loses no text. */
  lemma ParamSource(s: string, n: string, t: Template)
    requires |s| > 0 && s[0] == ':'
    requires 1 + |n| <= |s| && s[1..1 + |n|] == n
    requires Source(t) == s[1 + |n|..]
    ensures Source(Template("", [Hole(n, t.lead)] + t.holes)) == s
  {
    SourceCons(Hole(n, t.lead), t.holes);
    assert s == s[..1] + s[1..1 + |n|] + s[1 + |n|..];
    assert s[..1] == ":";
  }

  /** A well-formed hole in front of well-formed holes. */
  lemma ParamHoles(h: Hole, hs: seq<Hole>)
    requires IsName(h.name) && Plain(h.tail) && (h.tail == "" || !IsWordChar(h.tail[0]))
    requires WellFormedHoles(hs)
    ensures WellFormed(Template("", [h] + hs))
  {
    var all := [h] + hs;
    forall k | 0 <= k < |all|
      ensures IsName(all[k].name) && Plain(all[k].tail) && (all[k].tail == "" || !IsWordChar(all[k].tail[0]))
    {
      if k > 0 { assert all[k] == hs[k - 1]; }
    }
  }

  /** The literal case of `Parse`: `s[0]` is text. */
  lemma ParseText(s: string, t: Template)
    requires |s| > 0 && !(s[0] == ':' && |s| > 1 && IsWordChar(s[1]))
    requires Source(t) == s[1..] && WellFormed(t)
    ensures Source(Template([s[0]] + t.lead, t.holes)) == s
    ensures WellFormed(Template([s[0]] + t.lead, t.holes))
  {
    assert s == [s[0]] + s[1..];
    assert [s[0]] + t.lead + SourceOf(t.holes) == [s[0]] + (t.lead + SourceOf(t.holes));
    if |t.lead| > 0 {
      assert t.lead[0] == s[1..][0];
    }
    PlainAppend([s[0]], t.lead);
  }

  /** Gluing two placeholder-free strings yields one, unless a `:name` forms at the seam. */
  lemma PlainAppend(a: string, b: string)
    requires Plain(a) && Plain(b)
    requires |a| > 0 && a[|a| - 1] == ':' && |b| > 0 ==> !IsWordChar(b[0])
    ensures Plain(a + b)
  {
    var s := a + b;
    forall i | 0 <= i < |s| - 1 ensures !StartsToken(s, i) {
      if i < |a| - 1 {
        assert s[i] == a[i] && s[i + 1] == a[i + 1];
        assert !StartsToken(a, i);
      } else if i >= |a| {
        assert s[i] == b[i - |a|] && s[i + 1] == b[i - |a| + 1];
        assert !StartsToken(b, i - |a|);
      }
    }
  }

  /** `Brace` is the replacement the source builds: `'{' + capture.substr(1) + '}'`. */
  function Brace(capture: string): string {
    "{" + (if |capture| == 0 then "" else capture[1..]) + "}"
  }

  /** The source's loop as a fold: replace the first occurrence of each capture in turn. */
  function RewriteAll(url: string, captures: seq<string>): string
    decreases |captures|
  {
    if captures == [] then url
    else RewriteAll(ReplaceFirst(url, captures[0], Brace(captures[0])), captures[1..])
  }

  /**
   * After a placeholder-free prefix, the first occurrence of `:name` is the
   * one that starts right after the prefix.
   */
  lemma ReplaceAfterPlain(p: string, n: string, rest: string)
    requires Plain(p) && IsName(n)
    ensures ReplaceFirst(p + (":" + n) + rest, ":" + n, Brace(":" + n))
         == p + ("{" + n + "}") + rest
  {
    var tok := ":" + n;
    var s := p + tok + rest;
    assert s[|p|..|p| + |tok|] == tok;
    forall j: nat | j < |p| ensures !OccursAt(s, tok, j) {
      if j + |tok| <= |s| {
        var w := s[j..j + |tok|];
        assert tok[0] == ':' && tok[1] == n[0] && IsWordChar(n[0]);
        if j + 1 < |p| {
          assert !StartsToken(p, j);
          assert w[0] == p[j] && w[1] == p[j + 1];
        } else {
          assert w[1] == s[|p|] == tok[0];
        }
        assert w[0] != tok[0] || w[1] != tok[1];
      }
    }
    ReplaceFirstAt(s, tok, Brace(tok), |p|);
    assert tok[1..] == n;
    assert s[..|p|] == p;
    assert s[|p| + |tok|..] == rest;
  }

  /**
   * The replace-first loop over the holes' tokens, started after a
   * placeholder-free prefix, rewrites each hole in place.
   */
  lemma {:induction false} RewriteHoles(p: string, hs: seq<Hole>)
    requires Plain(p)
    requires forall k :: 0 <= k < |hs| ==> IsName(hs[k].name) && Plain(hs[k].tail)
    ensures RewriteAll(p + SourceOf(hs), Tokens(hs)) == p + BracedOf(hs)
    decreases |hs|
  {
    if hs == [] {
      assert p + "" == p;
    } else {
      var h := hs[0];
      var tok := ":" + h.name;
      var p2 := p + ("{" + h.name + "}") + h.tail;
      var s := p + SourceOf(hs);
      StepStrings(p, h, SourceOf(hs[1..]), BracedOf(hs[1..]));
      ReplaceAfterPlain(p, h.name, h.tail + SourceOf(hs[1..]));
      assert ReplaceFirst(s, tok, Brace(tok)) == p2 + SourceOf(hs[1..]);
      PlainStep(p, h);
      RewriteHoles(p2, hs[1..]);
      assert Tokens(hs) == [tok] + Tokens(hs[1..]);
      assert RewriteAll(s, Tokens(hs)) == RewriteAll(p2 + SourceOf(hs[1..]), Tokens(hs[1..]));
    }
  }

  /** The string identities behind one step of `RewriteHoles`. */
  lemma StepStrings(p: string, h: Hole, src: string, braced: string)
    ensures p + (":" + h.name + h.tail + src) == p + (":" + h.name) + (h.tail + src)
    ensures p + ("{" + h.name + "}") + (h.tail + src) == (p + ("{" + h.name + "}") + h.tail) + src
    ensures (p + ("{" + h.name + "}") + h.tail) + braced == p + ("{" + h.name + "}" + h.tail + braced)
  {
  }

  /** Appending a rewritten hole to a placeholder-free prefix keeps it so. */
  lemma PlainStep(p: string, h: Hole)
    requires Plain(p) && IsName(h.name) && Plain(h.tail)
    ensures Plain(p + ("{" + h.name + "}") + h.tail)
  {
    var b := "{" + h.name + "}";
    assert Plain(b) by {
      forall i | 0 <= i < |b| - 1 ensures b[i] != ':' {
        if 0 < i { assert b[i] == h.name[i - 1]; }
      }
    }
    PlainAppend(p, b);
    PlainAppend(p + b, h.tail);
  }

  /**
   * The source's first-occurrence rewrite does what an anchored rewrite
   * does: every `:name` the tokenizer finds becomes `{name}` in place, and
   * no literal text changes.
   */
  lemma RewriteIsAnchored(url: string)
    ensures RewriteAll(url, Tokens(Parse(url).holes)) == Braced(Parse(url))
  {
    var t := Parse(url);
    RewriteHoles(t.lead, t.holes);
  }

  /** A URL has no `:name` parameter exactly when the tokenizer finds none. */
  lemma {:induction false} NoTokensIffPlain(url: string)
    ensures Tokens(Parse(url).holes) == [] <==> Plain(url)
  {
    var t := Parse(url);
    if t.holes != [] {
      var h := t.holes[0];
      assert url == t.lead + (":" + h.name) + (h.tail + SourceOf(t.holes[1..]));
      assert url[|t.lead|] == ':' && url[|t.lead| + 1] == h.name[0];
      assert StartsToken(url, |t.lead|);
    } else {
      assert SourceOf(t.holes) == "";
      assert Source(t) == t.lead + "" == t.lead;
      assert WellFormed(t) && Plain(t.lead);
    }
  }

  /** Without parameters the rewrite leaves the URL unchanged. */
  lemma PlainUrlUnchanged(url: string)
    requires Plain(url)
    ensures Braced(Parse(url)) == url
  {
    NoTokensIffPlain(url);
    assert Parse(url).holes == [];
  }

  /** The rewritten URL holds no `:name` parameter, so a second rewrite changes nothing. */
  lemma {:induction false} BracedIsPlain(p: string, hs: seq<Hole>)
    requires Plain(p)
    requires forall k :: 0 <= k < |hs| ==> IsName(hs[k].name) && Plain(hs[k].tail)
    ensures Plain(p + BracedOf(hs))
    decreases |hs|
  {
    if hs == [] {
      assert p + "" == p;
    } else {
      var h := hs[0];
      var p2 := p + ("{" + h.name + "}") + h.tail;
      PlainStep(p, h);
      forall k | 0 <= k < |hs[1..]| ensures IsName(hs[1..][k].name) && Plain(hs[1..][k].tail) {
        assert hs[1..][k] == hs[k + 1];
      }
      BracedIsPlain(p2, hs[1..]);
      StepStrings(p, h, "", BracedOf(hs[1..]));
    }
  }

  lemma RewriteIdempotent(url: string)
    ensures Plain(Braced(Parse(url)))
    ensures Braced(Parse(Braced(Parse(url)))) == Braced(Parse(url))
  {
    var t := Parse(url);
    BracedIsPlain(t.lead, t.holes);
    PlainUrlUnchanged(Braced(t));
  }

  /**
   * `_formatAPI`'s URL loop: match the URL against its own pattern and,
   * for each capture, replace its first occurrence with `{name}`.
   */
  method RewriteUrl(url: string) returns (r: string)
    ensures r == Braced(Parse(url))
    ensures Plain(r)
  {
    var matches := Tokens(Parse(url).holes);
    r := url;
    var j := 0;
    while j < |matches|
      invariant 0 <= j <= |matches|
      invariant RewriteAll(r, matches[j..]) == RewriteAll(url, matches)
    {
      assert matches[j..][1..] == matches[j + 1..];
      r := ReplaceFirst(r, matches[j], Brace(matches[j]));
      j := j + 1;
    }
    RewriteIsAnchored(url);
    RewriteIdempotent(url);
  }
}
