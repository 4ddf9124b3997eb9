/**
 * The back end's clean-up of generated code: every Markdown block fenced
 * with three backticks and tagged `openscad` or untagged is replaced by its
 * body, leftmost first and without overlap, each body ending at the first
 * closing fence after it; then white space is stripped from both ends the
 * way Python's `str.strip()` does.
 */
module Fence {
  import opened Wrappers
  import opened Text

  /** The line that closes a block: a line break, then three backticks. */
  const Closer: string := "\n```"

  /** The line that opens a block tagged `tag` (the tag may be empty). */
  function Opening(tag: string): string {
    "```" + tag + "\n"
  }

  /** The whole text of a fenced block. */
  function Fenced(tag: string, body: string): string {
    Opening(tag) + body + Closer
  }

  /** The two openings the expression accepts: the `openscad` tag or none. */
  predicate Accepted(tag: string) {
    tag == "openscad" || tag == ""
  }

  /** No closing fence starts anywhere in `b`. */
  predicate NoCloser(b: string) {
    forall j | 0 <= j <= |b| :: !IsAt(b, j, Closer)
  }

  /** A fenced block found at the head of a text: its tag and its body. */
  datatype Block = Block(tag: string, body: string) {
    function Length(): nat {
      |Fenced(tag, body)|
    }
  }

  /**
   * The match of the fence expression at the start of `s`, if any. The
   * optional tag group tries `openscad` first and then nothing, so at most
   * one opening fits; the lazy body then stops at the first closing fence.
   */
  function FenceAt(s: string): (r: Option<Block>)
    ensures r.Some? ==> Accepted(r.value.tag) && NoCloser(r.value.body)
    ensures r.Some? ==> IsAt(s, 0, Fenced(r.value.tag, r.value.body))
  {
    var tag := if IsAt(s, 0, Opening("openscad")) then "openscad" else "";
    if !IsAt(s, 0, Opening(tag)) then None
    else
      var q := |Opening(tag)|;
      match Find(s, Closer, q)
      case None => None
      case Some(k) =>
        var body := s[q..k];
        assert NoCloser(body) by {
          forall j | 0 <= j <= |body|
            ensures !IsAt(body, j, Closer)
          {
            IsAtSlice(s, q, k, j, Closer);
          }
        }
        assert IsAt(s, q, body) by {
          assert s[q..q + |body|] == body;
        }
        IsAtConcat(s, 0, Opening(tag), body);
        IsAtConcat(s, 0, Opening(tag) + body, Closer);
        Some(Block(tag, body))
  }

  /** A closing fence cannot start in the last three characters before another closing fence. */
  lemma CloserNotStraddling(s: string, e: nat, k: nat)
    requires IsAt(s, e, Closer) && k < e < k + |Closer|
    ensures !IsAt(s, k, Closer)
  {
    IsAtChars(s, e, Closer);
    IsAtChars(s, k, Closer);
    assert Closer[e - k] == '`';
  }

  /** An occurrence inside a part of the text that spells `body` is an occurrence in `body`. */
  lemma BodyOccurrence(s: string, q: nat, body: string, j: nat, w: string)
    requires IsAt(s, q, body) && j + |w| <= |body|
    ensures IsAt(s, q + j, w) ==> IsAt(body, j, w)
  {
    if IsAt(s, q + j, w) {
      forall i | 0 <= i < |w|
        ensures body[j + i] == w[i]
      {
        assert w[i] == s[q + j..q + j + |w|][i] == s[q + j + i];
        assert body[j + i] == s[q..q + |body|][j + i];
      }
      assert body[j..j + |w|] == w;
    }
  }

  /** Where `body` stands at `q` and a closing fence follows it, no closing fence starts earlier. */
  lemma NoCloserBefore(s: string, q: nat, body: string)
    requires NoCloser(body) && IsAt(s, q, body) && IsAt(s, q + |body|, Closer)
    ensures forall j | q <= j < q + |body| :: !IsAt(s, j, Closer)
  {
    var e := q + |body|;
    forall j | q <= j < e
      ensures !IsAt(s, j, Closer)
    {
      if j + |Closer| <= e {
        if IsAt(s, j, Closer) {
          BodyOccurrence(s, q, body, j - q, Closer);
        }
      } else {
        CloserNotStraddling(s, e, j);
      }
    }
  }

  /** Every text that is a block with an accepted tag and a body free of closing fences matches, with that body. */
  lemma FenceAtComplete(s: string, tag: string, body: string)
    requires Accepted(tag) && NoCloser(body)
    requires IsAt(s, 0, Fenced(tag, body))
    ensures FenceAt(s) == Some(Block(tag, body))
  {
    IsAtSplit(s, 0, Opening(tag) + body, Closer);
    IsAtSplit(s, 0, Opening(tag), body);
    var q := |Opening(tag)|;
    var e := q + |body|;
    if tag == "" {
      assert s[3] == Opening(tag)[3] == '\n';
      assert !IsAt(s, 0, Opening("openscad")) by {
        assert Opening("openscad")[3] == 'o';
      }
    }
    NoCloserBefore(s, q, body);
    assert Find(s, Closer, q) == Some(e);
    assert s[q..e] == body;
  }

  /**
   * `re.sub` with the fence expression and the first group as replacement:
   * where a block starts, its body replaces it and the scan resumes after
   * it; elsewhere one character is kept and the scan moves on.
   */
  function Substitute(s: string): (r: string)
    ensures |r| <= |s|
    decreases |s|
  {
    if s == [] then []
    else
      match FenceAt(s)
      case Some(f) =>
        assert |Fenced(f.tag, f.body)| <= |s|;
        f.body + Substitute(s[f.Length()..])
      case None => [s[0]] + Substitute(s[1..])
  }

  /** What `generate_cad` returns for the model's reply `s`. */
  function Clean(s: string): (r: string)
    ensures r == [] || (!IsSpace(Python, r[0]) && !IsSpace(Python, r[|r| - 1]))
  {
    Trim(Python, Substitute(s))
  }

  /** A block at the head of a text is replaced by its body, and the rest is rewritten on its own. */
  lemma SubstituteBlock(tag: string, body: string, rest: string)
    requires Accepted(tag) && NoCloser(body)
    ensures Substitute(Fenced(tag, body) + rest) == body + Substitute(rest)
  {
    var s := Fenced(tag, body) + rest;
    assert IsAt(s, 0, Fenced(tag, body)) by {
      assert s[0..|Fenced(tag, body)|] == Fenced(tag, body);
    }
    FenceAtComplete(s, tag, body);
    assert s[|Fenced(tag, body)|..] == rest;
  }

  /** A block starts at position `p` of `s`. */
  predicate StartsBlock(s: string, p: nat)
    requires p <= |s|
  {
    FenceAt(s[p..]).Some?
  }

  /** Text before which no block starts at any position is copied through unchanged. */
  lemma SubstitutePlain(u: string, rest: string)
    requires forall p | 0 <= p < |u| :: !StartsBlock(u + rest, p)
    ensures Substitute(u + rest) == u + Substitute(rest)
  {
    var s := u + rest;
    SubstituteFrom(s, 0, |u|);
    assert s[0..] == s && s[0..|u|] == u && s[|u|..] == rest;
  }

  /** `SubstitutePlain` within one text: from `a` to `n` no block starts, so that stretch is copied. */
  lemma {:induction false} SubstituteFrom(s: string, a: nat, n: nat)
    requires a <= n <= |s|
    requires forall p | a <= p < n :: !StartsBlock(s, p)
    ensures Substitute(s[a..]) == s[a..n] + Substitute(s[n..])
    decreases n - a
  {
    if a < n {
      SubstituteStep(s, a);
      SubstituteFrom(s, a + 1, n);
      SliceHead(s, a, n);
      ConsAssoc(s[a], s[a + 1..n], Substitute(s[n..]));
    }
  }

  /** Where no block starts, one character is kept and the scan moves on. */
  lemma SubstituteStep(s: string, a: nat)
    requires a < |s| && !StartsBlock(s, a)
    ensures Substitute(s[a..]) == [s[a]] + Substitute(s[a + 1..])
  {
    assert s[a..][1..] == s[a + 1..];
  }

  /** A block can only start where three backticks stand. */
  lemma FenceNeedsTicks(s: string)
    ensures FenceAt(s).Some? ==> |s| >= 8 && IsAt(s, 0, "```")
  {
    if FenceAt(s).Some? {
      var f := FenceAt(s).value;
      IsAtSplit(s, 0, Opening(f.tag) + f.body, Closer);
      IsAtSplit(s, 0, Opening(f.tag), f.body);
      IsAtSplit(s, 0, "```" + f.tag, "\n");
      IsAtSplit(s, 0, "```", f.tag);
    }
  }

  /** No block starts at a character other than a backtick. */
  lemma NoFenceOffTicks(s: string, p: nat)
    requires p < |s| && s[p] != '`'
    ensures FenceAt(s[p..]).None?
  {
    FenceNeedsTicks(s[p..]);
    IsAtSuffix(s, p, 0, "```");
    IsAtChars(s, p, "```");
  }

  /** The pieces a reply is cut into: plain text, or a fenced block. */
  datatype Segment = Plain(text: string) | Code(tag: string, body: string)

  /** Plain text free of backticks, or a block the expression accepts. */
  predicate Proper(g: Segment) {
    match g
    case Plain(text) => '`' !in text
    case Code(tag, body) => Accepted(tag) && NoCloser(body)
  }

  /** The reply's text made of `gs`. */
  function Join(gs: seq<Segment>): string {
    if gs == [] then []
    else
      (match gs[0]
       case Plain(text) => text
       case Code(tag, body) => Fenced(tag, body))
      + Join(gs[1..])
  }

  /** The same pieces with every block reduced to its body. */
  function Unfenced(gs: seq<Segment>): string {
    if gs == [] then []
    else
      (match gs[0]
       case Plain(text) => text
       case Code(_, body) => body)
      + Unfenced(gs[1..])
  }

  /**
   * The rewrite, piece by piece: plain text (without backticks) outside the
   * blocks is kept verbatim and every accepted block, however many there
   * are, is replaced by its body.
   */
  lemma {:induction false} SubstituteSegments(gs: seq<Segment>)
    requires forall j | 0 <= j < |gs| :: Proper(gs[j])
    ensures Substitute(Join(gs)) == Unfenced(gs)
  {
    if gs != [] {
      assert Proper(gs[0]);
      assert forall j | 0 <= j < |gs[1..]| :: Proper(gs[1..][j]) by {
        forall j | 0 <= j < |gs[1..]|
          ensures Proper(gs[1..][j])
        {
          assert gs[1..][j] == gs[j + 1];
        }
      }
      SubstituteSegments(gs[1..]);
      var rest := Join(gs[1..]);
      match gs[0]
      case Plain(text) =>
        forall p | 0 <= p < |text|
          ensures FenceAt((text + rest)[p..]).None?
        {
          assert (text + rest)[p] == text[p];
          NoFenceOffTicks(text + rest, p);
        }
        SubstitutePlain(text, rest);
      case Code(tag, body) =>
        SubstituteBlock(tag, body, rest);
    }
  }

  /** A reply that is one block tagged `openscad` comes back as its body, stripped. */
  lemma UnwrapTagged(body: string)
    requires NoCloser(body)
    ensures Clean(Fenced("openscad", body)) == Trim(Python, body)
  {
    SubstituteBlock("openscad", body, []);
    assert Fenced("openscad", body) + [] == Fenced("openscad", body);
    assert body + [] == body;
  }

  /** A reply that is one untagged block comes back as its body, stripped; an empty body gives the empty text. */
  lemma UnwrapBare(body: string)
    requires NoCloser(body)
    ensures Clean(Fenced("", body)) == Trim(Python, body)
    ensures body == [] ==> Clean(Fenced("", body)) == []
  {
    SubstituteBlock("", body, []);
    assert Fenced("", body) + [] == Fenced("", body);
    assert body + [] == body;
    if body == [] {
      TrimEmptyIffBlank(Python, body);
    }
  }

  /** A reply in which no block starts anywhere is only stripped. */
  lemma NoFenceStripped(s: string)
    requires forall p | 0 <= p < |s| :: FenceAt(s[p..]).None?
    ensures Clean(s) == Trim(Python, s)
  {
    forall p | 0 <= p < |s|
      ensures FenceAt((s + [])[p..]).None?
    {
      assert s + [] == s;
    }
    SubstitutePlain(s, []);
    assert s + [] == s;
  }

  /** In particular, a reply without three backticks in a row is only stripped. */
  lemma NoTicksStripped(s: string)
    requires forall p | 0 <= p < |s| :: !IsAt(s, p, "```")
    ensures Clean(s) == Trim(Python, s)
  {
    forall p | 0 <= p < |s|
      ensures FenceAt(s[p..]).None?
    {
      FenceNeedsTicks(s[p..]);
      IsAtSuffix(s, p, 0, "```");
    }
    NoFenceStripped(s);
  }

  /** Three backticks in a row occur nowhere in `b`. */
  predicate NoTicks(b: string) {
    forall j | 0 <= j <= |b| :: !IsAt(b, j, "```")
  }

  /**
   * A block tagged with any other language, or with `OpenSCAD` in other
   * letter case, is not a match: the reply is only stripped. The body may
   * hold single or double backticks, but not three in a row, which could
   * open a block of their own.
   */
  lemma OtherTagKept(tag: string, body: string)
    requires !Accepted(tag) && '\n' !in tag && '`' !in tag && NoTicks(body)
    ensures Clean(Fenced(tag, body)) == Trim(Python, Fenced(tag, body))
  {
    var s := Fenced(tag, body);
    forall p | 0 <= p < |s|
      ensures FenceAt(s[p..]).None?
    {
      OtherTagNoBlockAt(tag, body, p);
    }
    NoFenceStripped(s);
  }

  /** In a block with another tag, no block starts at any position. */
  lemma OtherTagNoBlockAt(tag: string, body: string, p: nat)
    requires !Accepted(tag) && '\n' !in tag && '`' !in tag && NoTicks(body)
    requires p < |Fenced(tag, body)|
    ensures FenceAt(Fenced(tag, body)[p..]).None?
  {
    var s := Fenced(tag, body);
    var n := |s|;
    var q := 4 + |tag|;
    assert s == "```" + tag + "\n" + body + "\n```";
    if p == 0 {
      assert IsAt(s, 0, Opening(tag)) by {
        assert s[..|Opening(tag)|] == Opening(tag);
      }
      OpeningTagUnique(s, tag, "openscad");
      OpeningTagUnique(s, tag, "");
      assert s[0..] == s;
    } else if p < 3 {
      assert s[3] == tag[0];
      FenceNeedsTicks(s[p..]);
      IsAtSuffix(s, p, 0, "```");
      IsAtChars(s, p, "```");
    } else if p < q {
      assert s[p] != '`' by {
        if p < 3 + |tag| {
          assert s[p] == tag[p - 3];
        }
      }
      NoFenceOffTicks(s, p);
    } else if p < n - 4 {
      BodyHasNoTicksAt(tag, body, p);
      FenceNeedsTicks(s[p..]);
      IsAtSuffix(s, p, 0, "```");
    } else {
      FenceNeedsTicks(s[p..]);
    }
  }

  /** Inside the body of a block, three backticks start nowhere: not in the body, and not across its closing line break. */
  lemma BodyHasNoTicksAt(tag: string, body: string, p: nat)
    requires NoTicks(body)
    requires 4 + |tag| <= p < |Fenced(tag, body)| - 4
    ensures !IsAt(Fenced(tag, body), p, "```")
  {
    var s := Fenced(tag, body);
    var q := 4 + |tag|;
    var n := |s|;
    assert s == Opening(tag) + body + Closer;
    assert n == q + |body| + 4;
    assert IsAt(s, q, body) by {
      assert s[q..q + |body|] == body;
    }
    if p + 3 <= q + |body| {
      BodyOccurrence(s, q, body, p - q, "```");
      assert !IsAt(body, p - q, "```");
    } else {
      var i := n - 4 - p;
      assert s[p + i] == '\n' && "```"[i] == '`';
      IsAtChars(s, p, "```");
    }
  }

  /** Two openings, each tag free of line breaks, that both occur at the head of a text have the same tag. */
  lemma OpeningTagUnique(s: string, t: string, u: string)
    requires '\n' !in t && '\n' !in u
    ensures IsAt(s, 0, Opening(t)) && IsAt(s, 0, Opening(u)) ==> t == u
  {
    IsAtChars(s, 0, Opening(t));
    IsAtChars(s, 0, Opening(u));
    OpeningChars(t);
    OpeningChars(u);
  }

  lemma OpeningChars(t: string)
    ensures |Opening(t)| == |t| + 4 && Opening(t)[3 + |t|] == '\n'
    ensures forall i | 0 <= i < |t| :: Opening(t)[3 + i] == t[i]
  {
  }

  lemma CapitalisedTagKept(body: string)
    requires NoTicks(body)
    ensures Clean(Fenced("OpenSCAD", body)) == Trim(Python, Fenced("OpenSCAD", body))
  {
    OtherTagKept("OpenSCAD", body);
  }

  /**
   * Two blocks with plain text between them are both unwrapped: the lazy
   * body of the first stops at its own closing fence rather than at the
   * second block's.
   */
  lemma TwoBlocks(t1: string, b1: string, middle: string, t2: string, b2: string)
    requires Accepted(t1) && Accepted(t2) && NoCloser(b1) && NoCloser(b2) && '`' !in middle
    ensures Clean(Fenced(t1, b1) + middle + Fenced(t2, b2)) == Trim(Python, b1 + middle + b2)
  {
    var gs := [Code(t1, b1), Plain(middle), Code(t2, b2)];
    assert Join(gs[2..]) == Fenced(t2, b2) + [];
    assert Join(gs) == Fenced(t1, b1) + (middle + (Fenced(t2, b2) + []));
    assert Unfenced(gs[2..]) == b2 + [];
    assert Unfenced(gs) == b1 + (middle + (b2 + []));
    SubstituteSegments(gs);
    assert Fenced(t1, b1) + middle + Fenced(t2, b2) == Join(gs);
    assert b1 + middle + b2 == Unfenced(gs);
  }
}
