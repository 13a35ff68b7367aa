/**
 * The share-identifier extractor `extractId` of the page component.
 *
 * The input is trimmed, then two regular expressions are tried in order, each
 * case-insensitively and each taking its leftmost match:
 *   1. `https?://(www.)?<host>.<tld>/s/` followed by a capture of one or more
 *      characters other than `/`, `?` and `#`, for an allow-listed host and tld;
 *   2. `/s/` followed by the same capture, whatever precedes it.
 * If neither matches, the trimmed input is returned without its trailing slashes.
 *
 * The regular expressions are written as data (a Pattern of Pieces) and run by
 * a small backtracking matcher that tries alternatives in order and an
 * optional piece first with, then without, as JavaScript's engine does.
 * Case-insensitive matching of these ASCII patterns is exact matching against
 * Fold(t), the input with its ASCII capitals lowered; Fold keeps every
 * position, so the capture is cut from the input itself at the same indices.
 */
module Extract {
  import opened Wrappers
  import opened Text

  // ---------------------------------------------------------------------------
  // The two regular expressions
  // ---------------------------------------------------------------------------

  /** One piece of a pattern: a choice of literals tried in order, or a literal that may be absent. */
  datatype Piece = Alt(options: seq<string>) | Opt(text: string)

  /** A sequence of pieces, followed by the capture `([^/?#]+)`. */
  datatype Pattern = Done | Then(piece: Piece, rest: Pattern)

  /** The host and tld alternatives of the strict pattern, in the order they are written. */
  const HostNames: seq<string> := ["terabox", "terasharelink", "terashare", "1024tera", "teraboxcdn"]
  const TldNames: seq<string> := ["com", "net", "org", "app", "cn"]

  /** `\/s\/`, the generic pattern, which also ends the strict one. */
  const AnyShare: Pattern := Then(Alt(["/s/"]), Done)

  /** `(?:com|net|…)\/s\/` with the given tlds. */
  function TldTail(tlds: seq<string>): Pattern {
    Then(Alt(tlds), AnyShare)
  }

  /** `(?:terabox|…)(?:\.(?:com|…))\/s\/` with the given hosts and tlds. */
  function HostTail(hosts: seq<string>, tlds: seq<string>): Pattern {
    Then(Alt(hosts), Then(Alt(["."]), TldTail(tlds)))
  }

  /** `(?:www\.)?` and the host part. */
  function SubdomainTail(hosts: seq<string>, tlds: seq<string>): Pattern {
    Then(Opt("www."), HostTail(hosts, tlds))
  }

  /** `https?:\/\/(?:www\.)?(?:terabox|…)(?:\.(?:com|…))\/s\/` with the given hosts and tlds. */
  function StrictPattern(hosts: seq<string>, tlds: seq<string>): Pattern {
    SchemeThen(SubdomainTail(hosts, tlds))
  }

  /** `https?:\/\/` and then rest. */
  function SchemeThen(rest: Pattern): Pattern {
    Then(Alt(["http"]), Then(Opt("s"), Then(Alt(["://"]), rest)))
  }

  /** The strict pattern of the page. */
  const ShareLink: Pattern := StrictPattern(HostNames, TldNames)

  /** What the matcher needs of the alternatives for the strict pattern to be
      unambiguous: hosts are non-empty, contain no `.` and do not start with
      the `w` of `www.`; tlds contain no `/`. */
  ghost predicate WellFormed(hosts: seq<string>, tlds: seq<string>) {
    (forall h :: h in hosts ==> h != [] && h[0] != 'w' && Avoids(h, '.'))
    && (forall d :: d in tlds ==> Avoids(d, '/'))
  }

  /** The literal s does not contain the character c. */
  ghost predicate Avoids(s: string, c: char) {
    forall k :: 0 <= k < |s| ==> s[k] != c
  }

  /** The characters that end a captured identifier. */
  predicate IsDelimiter(c: char) {
    c == '/' || c == '?' || c == '#'
  }

  // ---------------------------------------------------------------------------
  // What the two patterns denote
  // ---------------------------------------------------------------------------

  const Schemes: set<string> := {"http://", "https://"}
  const Subdomains: set<string> := {"", "www."}

  /** The text `<tld>/s/`. */
  function TldText(tld: string): string {
    tld + "/s/"
  }

  /** The text `<host>.<tld>/s/`. */
  function HostText(h: string, tld: string): string {
    h + ("." + TldText(tld))
  }

  /** The text `<scheme><www.><host>.<tld>/s/`. */
  function SharePrefix(sc: string, w: string, h: string, tld: string): string {
    sc + (w + HostText(h, tld))
  }

  /** The strict pattern with the given alternatives matches t at p, taking
      the scheme sc, the subdomain w, the host h and the tld, and a non-empty
      capture follows. */
  ghost predicate ShareUrlWith(t: string, p: nat, hosts: seq<string>, tlds: seq<string>,
                               sc: string, w: string, h: string, tld: string) {
    sc in Schemes && w in Subdomains && h in hosts && tld in tlds
    && var n := |SharePrefix(sc, w, h, tld)|;
    p + n < |t| && Fold(t)[p..p + n] == SharePrefix(sc, w, h, tld) && !IsDelimiter(t[p + n])
  }

  ghost predicate ShareUrlAt(t: string, p: nat, hosts: seq<string>, tlds: seq<string>) {
    exists sc, w, h, tld :: ShareUrlWith(t, p, hosts, tlds, sc, w, h, tld)
  }

  /** The generic pattern matches t at q: `/s/` in any case, then a non-empty capture. */
  ghost predicate ShareSegmentAt(t: string, q: nat) {
    q + 3 < |t| && Fold(t)[q..q + 3] == "/s/" && !IsDelimiter(t[q + 3])
  }

  /** t[a..b] is a maximal non-empty run of non-delimiters: what `([^/?#]+)` captures. */
  ghost predicate IsMaximalRun(t: string, a: nat, b: nat) {
    a < b <= |t| && (forall k :: a <= k < b ==> !IsDelimiter(t[k]))
    && (b == |t| || IsDelimiter(t[b]))
  }

  // ---------------------------------------------------------------------------
  // The matcher, on a folded string u
  // ---------------------------------------------------------------------------

  /** Where the literal lit ends if it occurs in u at i. */
  function LiteralEnd(u: string, i: nat, lit: string): Option<nat> {
    if i + |lit| <= |u| && u[i..i + |lit|] == lit then Some(i + |lit|) else None
  }

  /** Where the capture starts when pat matches at i: the first way through
      pat, in the engine's order, after which at least one character of the
      capture follows. */
  function MatchEnd(pat: Pattern, u: string, i: nat): (r: Option<nat>)
    requires i <= |u|
    ensures r.Some? ==> i <= r.value < |u| && !IsDelimiter(u[r.value])
    decreases pat, 0
  {
    match pat
    case Done => if i < |u| && !IsDelimiter(u[i]) then Some(i) else None
    case Then(Opt(x), rest) =>
      var taken := if LiteralEnd(u, i, x).Some? then MatchEnd(rest, u, i + |x|) else None;
      if taken.Some? then taken else MatchEnd(rest, u, i)
    case Then(Alt(options), rest) => AltEnd(options, rest, u, i)
  }

  /** The first of options that occurs at i and lets rest match after it. */
  function AltEnd(options: seq<string>, rest: Pattern, u: string, i: nat): (r: Option<nat>)
    requires i <= |u|
    ensures r.Some? ==> i <= r.value < |u| && !IsDelimiter(u[r.value])
    decreases rest, |options|
  {
    if options == [] then None
    else
      var first := if LiteralEnd(u, i, options[0]).Some? then MatchEnd(rest, u, i + |options[0]|) else None;
      if first.Some? then first else AltEnd(options[1..], rest, u, i)
  }

  /** pat matches at p, including at least one captured character. */
  predicate MatchesAt(pat: Pattern, u: string, p: nat)
    requires p <= |u|
  {
    MatchEnd(pat, u, p).Some?
  }

  /** The leftmost position at or after from where pat matches. */
  function Leftmost(pat: Pattern, u: string, from: nat): (r: Option<nat>)
    requires from <= |u|
    ensures r.Some? ==> from <= r.value < |u| && MatchesAt(pat, u, r.value)
    ensures r.Some? ==> forall q :: from <= q < r.value ==> !MatchesAt(pat, u, q)
    ensures r.None? ==> forall q :: from <= q <= |u| ==> !MatchesAt(pat, u, q)
    decreases |u| - from
  {
    if from == |u| then None
    else if MatchesAt(pat, u, from) then Some(from)
    else Leftmost(pat, u, from + 1)
  }

  /** The end of the greedy `[^/?#]+` run that starts at i. */
  function RunEnd(t: string, i: nat): (r: nat)
    requires i <= |t|
    ensures i <= r <= |t|
    ensures forall k :: i <= k < r ==> !IsDelimiter(t[k])
    ensures r == |t| || IsDelimiter(t[r])
    decreases |t| - i
  {
    if i == |t| || IsDelimiter(t[i]) then i else RunEnd(t, i + 1)
  }

  /** `t.match(pat)[1]`: the capture of the leftmost match, if any. */
  function Search(pat: Pattern, t: string): (r: Option<string>)
    ensures r.Some? ==> r.value != [] && |r.value| <= |t|
    ensures r.Some? ==> forall k :: 0 <= k < |r.value| ==> !IsDelimiter(r.value[k])
  {
    var u := Fold(t);
    match Leftmost(pat, u, 0)
    case None => None
    case Some(p) =>
      var e := MatchEnd(pat, u, p).value;
      assert |u| == |t| && u[e] == Lower(t[e]);
      Some(t[e..RunEnd(t, e)])
  }

  /** `trimmed.replace(/\/+$/, "")`. */
  function TrimTrailingSlashes(s: string): (r: string)
    ensures |r| <= |s| && r == s[..|r|]
    ensures forall k :: |r| <= k < |s| ==> s[k] == '/'
    ensures r == [] || r[|r| - 1] != '/'
  {
    if s != [] && s[|s| - 1] == '/' then
      var r := TrimTrailingSlashes(s[..|s| - 1]);
      assert s[..|s| - 1][..|r|] == s[..|r|];
      r
    else s
  }

  /** extractId: the identifier a pasted share link or bare id denotes. */
  function ExtractId(input: string): (r: string)
    ensures input == [] ==> r == []
    ensures r == [] || r[|r| - 1] != '/'
    ensures |r| <= |Trim(input)|
  {
    if input == [] then []
    else
      var trimmed := Trim(input);
      var urlMatch := Search(ShareLink, trimmed);
      if urlMatch.Some? && urlMatch.value != [] then urlMatch.value
      else
        var genericMatch := Search(AnyShare, trimmed);
        if genericMatch.Some? && genericMatch.value != [] then genericMatch.value
        else TrimTrailingSlashes(trimmed)
  }

  // ---------------------------------------------------------------------------
  // Slices
  // ---------------------------------------------------------------------------

  /** An occurrence of x + y splits into an occurrence of x and one of y right after it. */
  lemma SplitSlice(u: string, p: nat, x: string, y: string)
    requires p + |x + y| <= |u| && u[p..p + |x + y|] == x + y
    ensures u[p..p + |x|] == x && u[p + |x|..p + |x| + |y|] == y
  {
    SubSlice(u, p, p + |x + y|, 0, |x|);
    SubSlice(u, p, p + |x + y|, |x|, |x + y|);
  }

  /** Adjacent occurrences of x and y make an occurrence of x + y. */
  lemma JoinSlice(u: string, p: nat, j: nat, e: nat, x: string, y: string)
    requires p <= j <= e <= |u| && u[p..j] == x && u[j..e] == y
    ensures u[p..e] == x + y
  {
    assert u[p..e] == u[p..j] + u[j..e];
  }

  /** Two labels free of c that both occur at i, each followed there by c, are the same label. */
  lemma LabelEq(u: string, i: nat, o: string, h: string, c: char)
    requires i + |o| < |u| && u[i..i + |o|] == o && u[i + |o|] == c && Avoids(o, c)
    requires i + |h| < |u| && u[i..i + |h|] == h && u[i + |h|] == c && Avoids(h, c)
    ensures o == h
  {
  }

  // ---------------------------------------------------------------------------
  // How the matcher goes through one piece
  // ---------------------------------------------------------------------------

  /** A one-literal piece matches the literal, then the rest. */
  lemma AltSingle(s: string, rest: Pattern, u: string, i: nat)
    requires i <= |u|
    ensures MatchEnd(Then(Alt([s]), rest), u, i)
         == if LiteralEnd(u, i, s).Some? then MatchEnd(rest, u, i + |s|) else None
  {
    assert MatchEnd(Then(Alt([s]), rest), u, i) == AltEnd([s], rest, u, i);
    assert AltEnd([s][1..], rest, u, i) == None by {
      assert [s][1..] == [];
    }
  }

  /** A successful choice went through one of its options, and the rest matched after it. */
  lemma {:induction false} AltSound(options: seq<string>, rest: Pattern, u: string, i: nat) returns (o: string)
    requires i <= |u| && AltEnd(options, rest, u, i).Some?
    ensures o in options && i + |o| <= |u| && u[i..i + |o|] == o
    ensures AltEnd(options, rest, u, i) == MatchEnd(rest, u, i + |o|)
    decreases |options|
  {
    if LiteralEnd(u, i, options[0]).Some? && MatchEnd(rest, u, i + |options[0]|).Some? {
      o := options[0];
    } else {
      o := AltSound(options[1..], rest, u, i);
    }
  }

  /** What follows a one-literal piece starts with that literal's first character. */
  lemma NextStarts(s: string, rest: Pattern, u: string, k: nat)
    requires k <= |u| && s != [] && MatchEnd(Then(Alt([s]), rest), u, k).Some?
    ensures k < |u| && u[k] == s[0]
  {
    AltSingle(s, rest, u, k);
    assert u[k..k + |s|][0] == u[k];
  }

  /** Where the text at i is the label h and then the literal s, and neither h nor
      any option contains s's first character, a choice among options followed
      by s succeeds only through h. */
  lemma {:induction false} AltLabel(options: seq<string>, s: string, rest: Pattern, u: string, i: nat, h: string)
    requires s != [] && i + |h| + |s| <= |u|
    requires u[i..i + |h|] == h && u[i + |h|..i + |h| + |s|] == s
    requires Avoids(h, s[0]) && forall o :: o in options ==> Avoids(o, s[0])
    ensures AltEnd(options, Then(Alt([s]), rest), u, i)
         == if h in options then MatchEnd(rest, u, i + |h| + |s|) else None
    decreases |options|
  {
    if options != [] {
      var o := options[0];
      AltLabel(options[1..], s, rest, u, i, h);
      AltSingle(s, rest, u, i + |h|);
      assert u[i + |h|] == s[0] by {
        assert u[i + |h|..i + |h| + |s|][0] == u[i + |h|];
      }
      if LiteralEnd(u, i, o).Some? && MatchEnd(Then(Alt([s]), rest), u, i + |o|).Some? {
        NextStarts(s, rest, u, i + |o|);
        LabelEq(u, i, o, h, s[0]);
      }
    }
  }

  // ---------------------------------------------------------------------------
  // The strict pattern finds the capture right after a share URL's prefix
  // ---------------------------------------------------------------------------

  lemma TldTailExact(tlds: seq<string>, u: string, i: nat, tld: string)
    requires tld in tlds && forall d :: d in tlds ==> Avoids(d, '/')
    requires i + |TldText(tld)| < |u| && u[i..i + |TldText(tld)|] == TldText(tld)
    requires !IsDelimiter(u[i + |TldText(tld)|])
    ensures MatchEnd(TldTail(tlds), u, i) == Some(i + |TldText(tld)|)
  {
    SplitSlice(u, i, tld, "/s/");
    AltLabel(tlds, "/s/", Done, u, i, tld);
  }

  lemma HostTailExact(hosts: seq<string>, tlds: seq<string>, u: string, i: nat, h: string, tld: string)
    requires WellFormed(hosts, tlds) && h in hosts && tld in tlds
    requires i + |HostText(h, tld)| < |u| && u[i..i + |HostText(h, tld)|] == HostText(h, tld)
    requires !IsDelimiter(u[i + |HostText(h, tld)|])
    ensures MatchEnd(HostTail(hosts, tlds), u, i) == Some(i + |HostText(h, tld)|)
  {
    SplitSlice(u, i, h, "." + TldText(tld));
    SplitSlice(u, i + |h|, ".", TldText(tld));
    AltLabel(hosts, ".", TldTail(tlds), u, i, h);
    TldTailExact(tlds, u, i + |h| + 1, tld);
  }

  lemma SubdomainTailExact(hosts: seq<string>, tlds: seq<string>, u: string, j: nat, w: string, h: string, tld: string)
    requires WellFormed(hosts, tlds) && w in Subdomains && h in hosts && tld in tlds
    requires j + |w + HostText(h, tld)| < |u| && u[j..j + |w + HostText(h, tld)|] == w + HostText(h, tld)
    requires !IsDelimiter(u[j + |w + HostText(h, tld)|])
    ensures MatchEnd(SubdomainTail(hosts, tlds), u, j) == Some(j + |w + HostText(h, tld)|)
  {
    SplitSlice(u, j, w, HostText(h, tld));
    HostTailExact(hosts, tlds, u, j + |w|, h, tld);
    if w == "" {
      assert u[j] == h[0] by {
        assert u[j..j + |HostText(h, tld)|][0] == u[j];
      }
      assert j + 4 <= |u| ==> u[j..j + 4][0] == u[j];
    }
  }

  /** An optional piece is taken when its literal occurs and the rest matches after it, and skipped otherwise. */
  lemma OptStep(x: string, rest: Pattern, u: string, i: nat)
    requires i <= |u|
    ensures MatchEnd(Then(Opt(x), rest), u, i)
         == if LiteralEnd(u, i, x).Some? && MatchEnd(rest, u, i + |x|).Some? then MatchEnd(rest, u, i + |x|)
            else MatchEnd(rest, u, i)
  {
  }

  /** A literal that occurs at i is read there. */
  lemma LiteralHit(u: string, i: nat, lit: string)
    requires i + |lit| <= |u| && u[i..i + |lit|] == lit
    ensures LiteralEnd(u, i, lit) == Some(i + |lit|)
  {
  }

  /** A literal whose first character differs from the text's at i is not read there. */
  lemma LiteralMiss(u: string, i: nat, lit: string)
    requires lit != [] && i < |u| && u[i] != lit[0]
    ensures LiteralEnd(u, i, lit).None?
  {
    assert i + |lit| <= |u| ==> u[i..i + |lit|][0] == u[i];
  }

  /** The scheme pieces `https?:\/\/` read `https://` and go on after it. */
  lemma HttpsExact(u: string, p: nat, rest: Pattern)
    requires p + 8 <= |u| && u[p..p + 8] == "https://"
    ensures MatchEnd(SchemeThen(rest), u, p) == MatchEnd(rest, u, p + 8)
  {
    var afterScheme := Then(Alt(["://"]), rest);
    SubSlice(u, p, p + 8, 0, 4);
    SubSlice(u, p, p + 8, 4, 5);
    SubSlice(u, p, p + 8, 5, 8);
    assert "https://"[0..4] == "http" && "https://"[4..5] == "s" && "https://"[5..8] == "://";
    LiteralHit(u, p, "http");
    LiteralHit(u, p + 4, "s");
    LiteralHit(u, p + 5, "://");
    assert u[p + 4] == 's' by {
      assert u[p + 4..p + 5][0] == u[p + 4];
    }
    LiteralMiss(u, p + 4, "://");
    AltSingle("http", Then(Opt("s"), afterScheme), u, p);
    OptStep("s", afterScheme, u, p + 4);
    AltSingle("://", rest, u, p + 5);
    AltSingle("://", rest, u, p + 4);
  }

  /** The scheme pieces `https?:\/\/` read `http://` and go on after it. */
  lemma HttpExact(u: string, p: nat, rest: Pattern)
    requires p + 7 <= |u| && u[p..p + 7] == "http://"
    ensures MatchEnd(SchemeThen(rest), u, p) == MatchEnd(rest, u, p + 7)
  {
    var afterScheme := Then(Alt(["://"]), rest);
    SubSlice(u, p, p + 7, 0, 4);
    SubSlice(u, p, p + 7, 4, 7);
    assert "http://"[0..4] == "http" && "http://"[4..7] == "://";
    LiteralHit(u, p, "http");
    LiteralHit(u, p + 4, "://");
    assert u[p + 4] == ':' by {
      assert u[p + 4..p + 7][0] == u[p + 4];
    }
    LiteralMiss(u, p + 4, "s");
    AltSingle("http", Then(Opt("s"), afterScheme), u, p);
    OptStep("s", afterScheme, u, p + 4);
    AltSingle("://", rest, u, p + 4);
  }

  lemma StrictExact(hosts: seq<string>, tlds: seq<string>, u: string, p: nat, sc: string, w: string, h: string, tld: string)
    requires WellFormed(hosts, tlds) && sc in Schemes && w in Subdomains && h in hosts && tld in tlds
    requires p + |SharePrefix(sc, w, h, tld)| < |u| && u[p..p + |SharePrefix(sc, w, h, tld)|] == SharePrefix(sc, w, h, tld)
    requires !IsDelimiter(u[p + |SharePrefix(sc, w, h, tld)|])
    ensures MatchEnd(StrictPattern(hosts, tlds), u, p) == Some(p + |SharePrefix(sc, w, h, tld)|)
  {
    SplitSlice(u, p, sc, w + HostText(h, tld));
    SubdomainTailExact(hosts, tlds, u, p + |sc|, w, h, tld);
    if sc == "https://" {
      HttpsExact(u, p, SubdomainTail(hosts, tlds));
    } else {
      HttpExact(u, p, SubdomainTail(hosts, tlds));
    }
  }

  // ---------------------------------------------------------------------------
  // Whatever the strict pattern matches is a share URL
  // ---------------------------------------------------------------------------

  lemma TldTailSound(tlds: seq<string>, u: string, i: nat) returns (tld: string)
    requires i <= |u| && MatchEnd(TldTail(tlds), u, i).Some?
    ensures tld in tlds && i + |TldText(tld)| <= |u| && u[i..i + |TldText(tld)|] == TldText(tld)
    ensures MatchEnd(TldTail(tlds), u, i) == Some(i + |TldText(tld)|)
  {
    tld := AltSound(tlds, AnyShare, u, i);
    AltSingle("/s/", Done, u, i + |tld|);
    JoinSlice(u, i, i + |tld|, i + |tld| + 3, tld, "/s/");
  }

  lemma HostTailSound(hosts: seq<string>, tlds: seq<string>, u: string, i: nat) returns (h: string, tld: string)
    requires i <= |u| && MatchEnd(HostTail(hosts, tlds), u, i).Some?
    ensures h in hosts && tld in tlds
    ensures i + |HostText(h, tld)| <= |u| && u[i..i + |HostText(h, tld)|] == HostText(h, tld)
    ensures MatchEnd(HostTail(hosts, tlds), u, i) == Some(i + |HostText(h, tld)|)
  {
    h := AltSound(hosts, Then(Alt(["."]), TldTail(tlds)), u, i);
    AltSingle(".", TldTail(tlds), u, i + |h|);
    tld := TldTailSound(tlds, u, i + |h| + 1);
    JoinSlice(u, i + |h|, i + |h| + 1, i + |HostText(h, tld)|, ".", TldText(tld));
    JoinSlice(u, i, i + |h|, i + |HostText(h, tld)|, h, "." + TldText(tld));
  }

  lemma SubdomainTailSound(hosts: seq<string>, tlds: seq<string>, u: string, j: nat) returns (w: string, h: string, tld: string)
    requires j <= |u| && MatchEnd(SubdomainTail(hosts, tlds), u, j).Some?
    ensures w in Subdomains && h in hosts && tld in tlds
    ensures j + |w + HostText(h, tld)| <= |u| && u[j..j + |w + HostText(h, tld)|] == w + HostText(h, tld)
    ensures MatchEnd(SubdomainTail(hosts, tlds), u, j) == Some(j + |w + HostText(h, tld)|)
  {
    if LiteralEnd(u, j, "www.").Some? && MatchEnd(HostTail(hosts, tlds), u, j + 4).Some? {
      w := "www.";
      h, tld := HostTailSound(hosts, tlds, u, j + 4);
      JoinSlice(u, j, j + 4, j + 4 + |HostText(h, tld)|, w, HostText(h, tld));
    } else {
      w := "";
      h, tld := HostTailSound(hosts, tlds, u, j);
      assert w + HostText(h, tld) == HostText(h, tld);
    }
  }

  lemma SchemeSound(u: string, p: nat, rest: Pattern) returns (sc: string)
    requires p <= |u| && MatchEnd(SchemeThen(rest), u, p).Some?
    ensures sc in Schemes && p + |sc| <= |u| && u[p..p + |sc|] == sc
    ensures MatchEnd(SchemeThen(rest), u, p) == MatchEnd(rest, u, p + |sc|)
  {
    var afterScheme := Then(Alt(["://"]), rest);
    AltSingle("http", Then(Opt("s"), afterScheme), u, p);
    if LiteralEnd(u, p + 4, "s").Some? && MatchEnd(afterScheme, u, p + 5).Some? {
      sc := "https://";
      AltSingle("://", rest, u, p + 5);
      JoinSlice(u, p, p + 4, p + 5, "http", "s");
      JoinSlice(u, p, p + 5, p + 8, "https", "://");
      HttpsExact(u, p, rest);
    } else {
      sc := "http://";
      AltSingle("://", rest, u, p + 4);
      JoinSlice(u, p, p + 4, p + 7, "http", "://");
      HttpExact(u, p, rest);
    }
  }

  lemma StrictSound(hosts: seq<string>, tlds: seq<string>, u: string, p: nat) returns (sc: string, w: string, h: string, tld: string)
    requires p <= |u| && MatchEnd(StrictPattern(hosts, tlds), u, p).Some?
    ensures sc in Schemes && w in Subdomains && h in hosts && tld in tlds
    ensures p + |SharePrefix(sc, w, h, tld)| <= |u| && u[p..p + |SharePrefix(sc, w, h, tld)|] == SharePrefix(sc, w, h, tld)
    ensures MatchEnd(StrictPattern(hosts, tlds), u, p) == Some(p + |SharePrefix(sc, w, h, tld)|)
  {
    sc := SchemeSound(u, p, SubdomainTail(hosts, tlds));
    w, h, tld := SubdomainTailSound(hosts, tlds, u, p + |sc|);
    JoinSlice(u, p, p + |sc|, p + |sc| + |w + HostText(h, tld)|, sc, w + HostText(h, tld));
  }

  // ---------------------------------------------------------------------------
  // The matchers accept exactly what the patterns denote
  // ---------------------------------------------------------------------------

  /** Folding keeps every delimiter and makes no other character one. */
  lemma FoldDelimiter(t: string, k: nat)
    requires k < |t|
    ensures Fold(t)[k] == Lower(t[k]) && (IsDelimiter(Fold(t)[k]) <==> IsDelimiter(t[k]))
  {
  }

  /** A share URL at p is matched there, and the capture starts right after its prefix. */
  lemma ShareUrlMatches(t: string, p: nat, hosts: seq<string>, tlds: seq<string>, sc: string, w: string, h: string, tld: string)
    requires WellFormed(hosts, tlds) && ShareUrlWith(t, p, hosts, tlds, sc, w, h, tld)
    ensures MatchEnd(StrictPattern(hosts, tlds), Fold(t), p) == Some(p + |SharePrefix(sc, w, h, tld)|)
  {
    FoldDelimiter(t, p + |SharePrefix(sc, w, h, tld)|);
    StrictExact(hosts, tlds, Fold(t), p, sc, w, h, tld);
  }

  /** A match of the strict pattern at p is a share URL. */
  lemma MatchIsShareUrl(t: string, p: nat, hosts: seq<string>, tlds: seq<string>)
    requires p <= |t| && MatchesAt(StrictPattern(hosts, tlds), Fold(t), p)
    ensures ShareUrlAt(t, p, hosts, tlds)
  {
    var sc, w, h, tld := StrictSound(hosts, tlds, Fold(t), p);
    FoldDelimiter(t, p + |SharePrefix(sc, w, h, tld)|);
    assert ShareUrlWith(t, p, hosts, tlds, sc, w, h, tld);
  }

  /** The strict matcher accepts exactly the share URLs. */
  lemma ShareLinkMatchIff(t: string, p: nat, hosts: seq<string>, tlds: seq<string>)
    requires WellFormed(hosts, tlds) && p <= |t|
    ensures MatchesAt(StrictPattern(hosts, tlds), Fold(t), p) <==> ShareUrlAt(t, p, hosts, tlds)
  {
    if MatchesAt(StrictPattern(hosts, tlds), Fold(t), p) {
      MatchIsShareUrl(t, p, hosts, tlds);
    }
    if ShareUrlAt(t, p, hosts, tlds) {
      var sc, w, h, tld :| ShareUrlWith(t, p, hosts, tlds, sc, w, h, tld);
      ShareUrlMatches(t, p, hosts, tlds, sc, w, h, tld);
    }
  }

  /** The generic matcher accepts exactly the share segments, and its capture starts after `/s/`. */
  lemma AnyShareMatchIff(t: string, q: nat)
    requires q <= |t|
    ensures MatchesAt(AnyShare, Fold(t), q) <==> ShareSegmentAt(t, q)
    ensures MatchesAt(AnyShare, Fold(t), q) ==> MatchEnd(AnyShare, Fold(t), q) == Some(q + 3)
  {
    AltSingle("/s/", Done, Fold(t), q);
    if q + 3 < |t| {
      FoldDelimiter(t, q + 3);
    }
  }

  /** Every share URL ends in a share segment: the strict pattern's matches are generic ones too. */
  lemma ShareUrlHasSegment(t: string, p: nat, hosts: seq<string>, tlds: seq<string>, sc: string, w: string, h: string, tld: string)
    requires ShareUrlWith(t, p, hosts, tlds, sc, w, h, tld)
    ensures ShareSegmentAt(t, p + |SharePrefix(sc, w, h, tld)| - 3)
  {
    var x := SharePrefix(sc, w, h, tld);
    var n := |x|;
    assert x[n - 3..] == "/s/";
    SubSlice(Fold(t), p, p + n, n - 3, n);
  }

  /** A share segment starts with a slash in the text itself. */
  lemma ShareSegmentSlash(t: string, q: nat)
    ensures ShareSegmentAt(t, q) ==> t[q] == '/'
  {
    if ShareSegmentAt(t, q) {
      assert Fold(t)[q..q + 3][0] == Fold(t)[q];
    }
  }

  // ---------------------------------------------------------------------------
  // Leftmost search
  // ---------------------------------------------------------------------------

  /** The `[^/?#]+` capture that starts at a is the maximal run there. */
  lemma RunEndIs(t: string, a: nat, b: nat)
    requires IsMaximalRun(t, a, b)
    ensures RunEnd(t, a) == b
  {
  }

  /** A match with none before it is the leftmost one. */
  lemma LeftmostIs(pat: Pattern, u: string, p: nat)
    requires p <= |u| && MatchesAt(pat, u, p)
    requires forall q :: 0 <= q < p ==> !MatchesAt(pat, u, q)
    ensures Leftmost(pat, u, 0) == Some(p)
  {
  }

  /** Search finds the leftmost match and captures the maximal run after it. */
  lemma SearchFinds(pat: Pattern, t: string, p: nat, e: nat, b: nat)
    requires p <= |t| && MatchEnd(pat, Fold(t), p) == Some(e)
    requires forall q :: 0 <= q < p ==> !MatchesAt(pat, Fold(t), q)
    requires IsMaximalRun(t, e, b)
    ensures Search(pat, t) == Some(t[e..b])
  {
    LeftmostIs(pat, Fold(t), p);
    RunEndIs(t, e, b);
  }

  /** Search finds nothing where the pattern matches nowhere. */
  lemma SearchMisses(pat: Pattern, t: string)
    requires forall q :: 0 <= q <= |t| ==> !MatchesAt(pat, Fold(t), q)
    ensures Search(pat, t) == None
  {
  }

  /** Whatever Search captures, the text holds a character that is not a delimiter. */
  lemma SearchNeedsCapture(pat: Pattern, t: string)
    requires Search(pat, t).Some?
    ensures exists k :: 0 <= k < |t| && !IsDelimiter(t[k])
  {
    var p := Leftmost(pat, Fold(t), 0).value;
    var e := MatchEnd(pat, Fold(t), p).value;
    FoldDelimiter(t, e);
  }

  /** Where no share URL starts before p, the strict pattern matches nowhere before p. */
  lemma NoShareLinkBefore(t: string, p: nat, hosts: seq<string>, tlds: seq<string>)
    requires WellFormed(hosts, tlds) && forall q :: 0 <= q < p ==> !ShareUrlAt(t, q, hosts, tlds)
    ensures forall q :: 0 <= q < p && q <= |t| ==> !MatchesAt(StrictPattern(hosts, tlds), Fold(t), q)
  {
    forall q | 0 <= q < p && q <= |t| ensures !MatchesAt(StrictPattern(hosts, tlds), Fold(t), q) {
      ShareLinkMatchIff(t, q, hosts, tlds);
    }
  }

  /** The strict pattern's search on t, found at p. */
  lemma ShareLinkSearch(t: string, p: nat, hosts: seq<string>, tlds: seq<string>, sc: string, w: string, h: string, tld: string, b: nat)
    requires WellFormed(hosts, tlds) && ShareUrlWith(t, p, hosts, tlds, sc, w, h, tld)
    requires forall q :: 0 <= q < p ==> !ShareUrlAt(t, q, hosts, tlds)
    requires IsMaximalRun(t, p + |SharePrefix(sc, w, h, tld)|, b)
    ensures Search(StrictPattern(hosts, tlds), t) == Some(t[p + |SharePrefix(sc, w, h, tld)|..b])
  {
    NoShareLinkBefore(t, p, hosts, tlds);
    ShareUrlMatches(t, p, hosts, tlds, sc, w, h, tld);
    SearchFinds(StrictPattern(hosts, tlds), t, p, p + |SharePrefix(sc, w, h, tld)|, b);
  }

  /** The strict pattern's search on t finds nothing. */
  lemma ShareLinkSearchMisses(t: string, hosts: seq<string>, tlds: seq<string>)
    requires WellFormed(hosts, tlds) && forall p :: 0 <= p <= |t| ==> !ShareUrlAt(t, p, hosts, tlds)
    ensures Search(StrictPattern(hosts, tlds), t) == None
  {
    NoShareLinkBefore(t, |t| + 1, hosts, tlds);
    SearchMisses(StrictPattern(hosts, tlds), t);
  }

  /** The generic pattern's search on t, found at q. */
  lemma ShareSegmentSearch(t: string, q: nat, b: nat)
    requires ShareSegmentAt(t, q)
    requires forall p :: 0 <= p < q ==> !ShareSegmentAt(t, p)
    requires IsMaximalRun(t, q + 3, b)
    ensures Search(AnyShare, t) == Some(t[q + 3..b])
  {
    forall p | 0 <= p <= q ensures MatchesAt(AnyShare, Fold(t), p) <==> ShareSegmentAt(t, p) {
      AnyShareMatchIff(t, p);
    }
    AnyShareMatchIff(t, q);
    SearchFinds(AnyShare, t, q, q + 3, b);
  }

  /** The generic pattern's search on t finds nothing. */
  lemma ShareSegmentSearchMisses(t: string)
    requires forall q :: 0 <= q <= |t| ==> !ShareSegmentAt(t, q)
    ensures Search(AnyShare, t) == None
  {
    forall q | 0 <= q <= |t| ensures !MatchesAt(AnyShare, Fold(t), q) {
      AnyShareMatchIff(t, q);
    }
    SearchMisses(AnyShare, t);
  }

  // ---------------------------------------------------------------------------
  // The page's alternatives
  // ---------------------------------------------------------------------------

  lemma HostFacts(h: string)
    requires h in HostNames
    ensures h != [] && h[0] != 'w' && Avoids(h, '.')
  {
  }

  lemma TldFacts(d: string)
    requires d in TldNames
    ensures Avoids(d, '/')
  {
  }

  /** The page's alternatives are well formed: no host contains `.` or starts
      with `w`, and no tld contains `/`. */
  lemma NamesWellFormed()
    ensures WellFormed(HostNames, TldNames)
  {
    forall h | h in HostNames ensures h != [] && h[0] != 'w' && Avoids(h, '.') {
      HostFacts(h);
    }
    forall d | d in TldNames ensures Avoids(d, '/') {
      TldFacts(d);
    }
  }

  // ---------------------------------------------------------------------------
  // What extractId returns
  // ---------------------------------------------------------------------------

  /** Strict branch, and its precedence: when the trimmed input holds a share
      URL at p and none earlier, the result is the maximal run right after
      that URL's `/s/`, whatever generic `/s/` segments occur before it. */
  lemma ExtractShareLink(input: string, p: nat, sc: string, w: string, h: string, tld: string, b: nat)
    requires ShareUrlWith(Trim(input), p, HostNames, TldNames, sc, w, h, tld)
    requires forall q :: 0 <= q < p ==> !ShareUrlAt(Trim(input), q, HostNames, TldNames)
    requires IsMaximalRun(Trim(input), p + |SharePrefix(sc, w, h, tld)|, b)
    ensures ExtractId(input) == Trim(input)[p + |SharePrefix(sc, w, h, tld)|..b]
  {
    NamesWellFormed();
    ShareLinkSearch(Trim(input), p, HostNames, TldNames, sc, w, h, tld, b);
  }

  /** Generic branch: with no share URL anywhere, the leftmost `/s/` segment at
      q gives the maximal run after it, whatever host precedes it. */
  lemma ExtractShareSegment(input: string, q: nat, b: nat)
    requires forall p :: 0 <= p <= |Trim(input)| ==> !ShareUrlAt(Trim(input), p, HostNames, TldNames)
    requires ShareSegmentAt(Trim(input), q)
    requires forall p :: 0 <= p < q ==> !ShareSegmentAt(Trim(input), p)
    requires IsMaximalRun(Trim(input), q + 3, b)
    ensures ExtractId(input) == Trim(input)[q + 3..b]
  {
    NamesWellFormed();
    ShareLinkSearchMisses(Trim(input), HostNames, TldNames);
    ShareSegmentSearch(Trim(input), q, b);
  }

  /** Fallback: with no share segment anywhere (and so no share URL either),
      the result is the trimmed input without its trailing slashes. */
  lemma ExtractFallback(input: string)
    requires forall q :: 0 <= q <= |Trim(input)| ==> !ShareSegmentAt(Trim(input), q)
    ensures ExtractId(input) == TrimTrailingSlashes(Trim(input))
  {
    var t := Trim(input);
    NamesWellFormed();
    forall p | 0 <= p <= |t| ensures !ShareUrlAt(t, p, HostNames, TldNames) {
      if ShareUrlAt(t, p, HostNames, TldNames) {
        var sc, w, h, tld :| ShareUrlWith(t, p, HostNames, TldNames, sc, w, h, tld);
        ShareUrlHasSegment(t, p, HostNames, TldNames, sc, w, h, tld);
      }
    }
    ShareLinkSearchMisses(t, HostNames, TldNames);
    ShareSegmentSearchMisses(t);
    if input == [] {
      assert t == [];
    }
  }

  /** A trimmed input without any slash comes back as it is. */
  lemma ExtractSlashFree(input: string)
    requires forall k :: 0 <= k < |Trim(input)| ==> Trim(input)[k] != '/'
    ensures ExtractId(input) == Trim(input)
  {
    var t := Trim(input);
    forall q | 0 <= q <= |t| ensures !ShareSegmentAt(t, q) {
      ShareSegmentSlash(t, q);
    }
    ExtractFallback(input);
  }

  /** The result is empty exactly when the trimmed input is made of slashes only
      (the empty string included). */
  lemma ExtractEmptyIff(input: string)
    ensures ExtractId(input) == [] <==> forall k :: 0 <= k < |Trim(input)| ==> Trim(input)[k] == '/'
  {
    var t := Trim(input);
    if Search(ShareLink, t).Some? {
      SearchNeedsCapture(ShareLink, t);
    }
    if Search(AnyShare, t).Some? {
      SearchNeedsCapture(AnyShare, t);
    }
    if input == [] {
      assert t == [];
    }
  }

  /** Trimming first changes nothing: extractId trims its input itself. */
  lemma ExtractTrimmed(input: string)
    ensures ExtractId(Trim(input)) == ExtractId(input)
  {
    TrimIdempotent(input);
    if Trim(input) == [] && input != [] {
      assert Search(ShareLink, []) == None;
      assert Search(AnyShare, []) == None;
    }
  }

  /** No ASCII capital in s. */
  ghost predicate Uncased(s: string) {
    forall k :: 0 <= k < |s| ==> !('A' <= s[k] <= 'Z')
  }

  lemma UncasedJoin(a: string, b: string)
    requires Uncased(a) && Uncased(b)
    ensures Uncased(a + b)
  {
    forall k | 0 <= k < |a + b| ensures !('A' <= (a + b)[k] <= 'Z') {
      if k >= |a| {
        assert (a + b)[k] == b[k - |a|];
      }
    }
  }

  /** Every share prefix the page accepts is written in small letters. */
  lemma SharePrefixUncased(sc: string, w: string, h: string, tld: string)
    requires sc in Schemes && w in Subdomains && h in HostNames && tld in TldNames
    ensures Uncased(SharePrefix(sc, w, h, tld))
  {
    assert Uncased(sc) && Uncased(w) && Uncased(h) && Uncased(tld);
    UncasedJoin(tld, "/s/");
    UncasedJoin(".", TldText(tld));
    UncasedJoin(h, "." + TldText(tld));
    UncasedJoin(w, HostText(h, tld));
    UncasedJoin(sc, w + HostText(h, tld));
  }

  /** Folding leaves a prefix without capitals as it is. */
  lemma FoldUncasedPrefix(t: string, pre: string)
    requires Uncased(pre) && |pre| <= |t| && t[..|pre|] == pre
    ensures Fold(t)[0..|pre|] == pre
  {
    forall k | 0 <= k < |pre| ensures Fold(t)[k] == pre[k] {
      assert t[k] == t[..|pre|][k];
    }
  }

  /** The link `<prefix><id><rest>` is its own trim, holds a share URL at 0,
      and the id is the maximal run after the prefix. */
  lemma CanonicalShape(sc: string, w: string, h: string, tld: string, id: string, rest: string)
    requires sc in Schemes && w in Subdomains && h in HostNames && tld in TldNames
    requires id != [] && forall k :: 0 <= k < |id| ==> !IsDelimiter(id[k])
    requires rest == [] || IsDelimiter(rest[0])
    requires !IsWhitespace((id + rest)[|id + rest| - 1])
    ensures var t := SharePrefix(sc, w, h, tld) + id + rest;
            Trim(t) == t && ShareUrlWith(t, 0, HostNames, TldNames, sc, w, h, tld)
            && IsMaximalRun(t, |SharePrefix(sc, w, h, tld)|, |SharePrefix(sc, w, h, tld)| + |id|)
            && t[|SharePrefix(sc, w, h, tld)|..|SharePrefix(sc, w, h, tld)| + |id|] == id
  {
    var pre := SharePrefix(sc, w, h, tld);
    var t := pre + id + rest;
    var n := |pre|;
    assert t[0] == pre[0] == sc[0];
    assert t[|t| - 1] == (id + rest)[|id + rest| - 1];
    TrimUnchanged(t);
    SharePrefixUncased(sc, w, h, tld);
    assert t[..n] == pre;
    FoldUncasedPrefix(t, pre);
    assert t[n] == id[0];
    forall k | n <= k < n + |id| ensures !IsDelimiter(t[k]) {
      assert t[k] == id[k - n];
    }
    if n + |id| < |t| {
      assert t[n + |id|] == rest[0];
    }
    assert t[n..n + |id|] == id;
  }

  /** A share link of the page's form, `<scheme>[www.]<host>.<tld>/s/<id>`,
      followed by nothing or by a path, query or fragment, gives exactly its
      id. */
  lemma ExtractCanonicalLink(sc: string, w: string, h: string, tld: string, id: string, rest: string)
    requires sc in Schemes && w in Subdomains && h in HostNames && tld in TldNames
    requires id != [] && forall k :: 0 <= k < |id| ==> !IsDelimiter(id[k])
    requires rest == [] || IsDelimiter(rest[0])
    requires !IsWhitespace((id + rest)[|id + rest| - 1])
    ensures ExtractId(SharePrefix(sc, w, h, tld) + id + rest) == id
  {
    var t := SharePrefix(sc, w, h, tld) + id + rest;
    var n := |SharePrefix(sc, w, h, tld)|;
    CanonicalShape(sc, w, h, tld, id, rest);
    ExtractShareLink(t, 0, sc, w, h, tld, n + |id|);
  }

  // ---------------------------------------------------------------------------
  // An example (stated for a t equal to the literal, so that the verifier
  // reasons with the lemmas above rather than by evaluating the matcher)
  // ---------------------------------------------------------------------------

  /** A string of slashes gives nothing. */
  lemma ExampleSlashes(t: string)
    requires t == "///"
    ensures ExtractId(t) == ""
  {
    TrimUnchanged(t);
    ExtractEmptyIff(t);
  }
}
