/** `ModelClient._parse_response` (phone_agent/model/client.py): splits the raw
    text of a model reply into a rationale ("thinking") and an instruction
    ("action"). The reply is stripped first, then a five-rung ladder is tried
    in order and the first rung that applies decides the split:
      1. an `<answer>` tag;
      2. a `<think>` ... `</think>` pair;
      3. the earliest of the action openers `{action=`, `do(`, `finish(`;
      4. a leading `{`;
      5. otherwise the whole text is thinking. */
module ResponseDecoder {
  import opened Text

  /** The `(thinking, action)` tuple the parser returns. */
  datatype Decoded = Decoded(thinking: string, action: string)

  const AnswerOpen: string := "<answer>"
  const AnswerClose: string := "</answer>"
  const ThinkOpen: string := "<think>"
  const ThinkClose: string := "</think>"

  /** The action openers of rung 3, in the order the source tries them. */
  const Markers: seq<string> := ["{action=", "do(", "finish("]

  predicate HasAnswerTag(c: string) {
    Contains(c, AnswerOpen)
  }

  predicate HasThinkPair(c: string) {
    Contains(c, ThinkOpen) && Contains(c, ThinkClose)
  }

  /** Some action opener occurs somewhere in `c`. */
  predicate HasMarker(c: string) {
    exists m :: m in Markers && Contains(c, m)
  }

  /** Some action opener occurs in `c` at index `i`. */
  predicate MarkerAt(c: string, i: int) {
    exists m :: m in Markers && OccursAt(c, m, i)
  }

  /** The loop that looks for the first action opener: starting from `best`,
      each opener's `find` result replaces the current position when it is
      found and earlier. The result is the earliest occurrence of any of
      `markers` before `best`, or `best` itself when there is none. */
  function EarliestMarker(c: string, markers: seq<string>, best: int): (pos: int)
    requires 0 <= best <= |c|
    ensures 0 <= pos <= best
    ensures pos == best || exists m :: m in markers && OccursAt(c, m, pos)
    ensures forall m, j :: m in markers && OccursAt(c, m, j) && j < best ==> pos <= j
    decreases |markers|
  {
    if |markers| == 0 then best
    else
      var found := Find(c, markers[0]);
      var best' := if found != -1 && found < best then found else best;
      var pos := EarliestMarker(c, markers[1..], best');
      assert forall m :: m in markers ==> m == markers[0] || m in markers[1..];
      pos
  }

  /** The position where rung 3 splits: the earliest index at which any action
      opener starts, or `|c|` when none occurs. */
  function FirstMarkerPos(c: string): (pos: int)
    ensures 0 <= pos <= |c|
    ensures pos < |c| <==> HasMarker(c)
    ensures pos < |c| ==> MarkerAt(c, pos)
    ensures forall j :: 0 <= j < pos ==> !MarkerAt(c, j)
  {
    var pos := EarliestMarker(c, Markers, |c|);
    assert forall m :: m in Markers ==> |m| > 0;
    assert pos < |c| ==> HasMarker(c) by {
      if pos < |c| {
        var m :| m in Markers && OccursAt(c, m, pos);
        assert Contains(c, m);
      }
    }
    pos
  }

  /** `_parse_response`: strips the reply, then runs the ladder. A total
      function; exactly one rung handles each reply. */
  function ParseResponse(content: string): (r: Decoded)
    ensures IsStripped(r.thinking) && IsStripped(r.action)
  {
    Ladder(Strip(content))
  }

  /** The five rungs, tried in order on the stripped reply `c`. */
  function Ladder(c: string): (r: Decoded)
    ensures IsStripped(c) ==> IsStripped(r.thinking) && IsStripped(r.action)
  {
    if Contains(c, AnswerOpen) then AnswerSplit(c)
    else if Contains(c, ThinkOpen) && Contains(c, ThinkClose) then ThinkSplit(c)
    else
      var pos := FirstMarkerPos(c);
      if pos < |c| then MarkerSplit(c, pos)
      else if StartsWith(c, "{") || StartsWith(c, "do(") || StartsWith(c, "finish(") then
        Decoded("", c)
      else
        Decoded(c, "")
  }

  /** Rung 1's split: before the first `<answer>` without think tags, after it
      without `</answer>` tags. */
  function AnswerSplit(c: string): (r: Decoded)
    requires HasAnswerTag(c)
    ensures IsStripped(r.thinking) && IsStripped(r.action)
  {
    var parts := SplitOnce(c, AnswerOpen);
    Decoded(Strip(RemoveAll(RemoveAll(parts[0], ThinkOpen), ThinkClose)),
            Strip(RemoveAll(parts[1], AnswerClose)))
  }

  /** Rung 2's split: before the first `</think>` without `<think>` tags, and after it. */
  function ThinkSplit(c: string): (r: Decoded)
    requires Contains(c, ThinkClose)
    ensures IsStripped(r.thinking) && IsStripped(r.action)
  {
    var parts := SplitOnce(c, ThinkClose);
    Decoded(Strip(RemoveAll(parts[0], ThinkOpen)), Strip(parts[1]))
  }

  /** Rung 3's split at index `pos`. */
  function MarkerSplit(c: string, pos: int): (r: Decoded)
    requires 0 <= pos <= |c|
    ensures IsStripped(r.thinking) && IsStripped(r.action)
  {
    Decoded(Strip(c[..pos]), Strip(c[pos..]))
  }

  /** `thinking` and `action` are, in this order, a prefix and a suffix of `c`
      with only whitespace between them: no text is lost or reordered. */
  predicate Partition(c: string, r: Decoded) {
    && |r.thinking| + |r.action| <= |c|
    && c[..|r.thinking|] == r.thinking
    && c[|c| - |r.action|..] == r.action
    && AllSpace(c[|r.thinking|..|c| - |r.action|])
  }

  /** The reply is stripped before any rung looks at it, so surrounding
      whitespace never changes the result. */
  lemma ParseIgnoresSurroundingSpace(content: string)
    ensures ParseResponse(Strip(content)) == ParseResponse(content)
  {
    StripIdempotent(content);
  }

  /** Rung 1: the reply is split at its first `<answer>`; the thinking is the
      text before it without `<think>`/`</think>` tags, the action the text
      after it without `</answer>` tags, both stripped. */
  lemma AnswerRung(content: string)
    requires HasAnswerTag(Strip(content))
    ensures var c := Strip(content);
            var r := ParseResponse(content);
            exists i :: FirstOccurrence(c, AnswerOpen, i)
              && r.thinking == Strip(RemoveAll(RemoveAll(c[..i], ThinkOpen), ThinkClose))
              && r.action == Strip(RemoveAll(c[i + |AnswerOpen|..], AnswerClose))
  {
    var c := Strip(content);
    assert ParseResponse(content) == AnswerSplit(c);
    var i := AnswerSplitAt(c);
  }

  /** Rung 1's split, located: the index of the first `<answer>` in `c`. */
  lemma AnswerSplitAt(c: string) returns (i: int)
    requires HasAnswerTag(c)
    ensures FirstOccurrence(c, AnswerOpen, i)
    ensures AnswerSplit(c).thinking == Strip(RemoveAll(RemoveAll(c[..i], ThinkOpen), ThinkClose))
    ensures AnswerSplit(c).action == Strip(RemoveAll(c[i + |AnswerOpen|..], AnswerClose))
  {
    var parts := SplitOnce(c, AnswerOpen);
    i := |parts[0]|;
    assert c[..i] == parts[0];
    assert c[i + |AnswerOpen|..] == parts[1];
  }

  /** Rung 2: without `<answer>` but with both think tags, the reply is split
      at its first `</think>`; the thinking loses its `<think>` tags. */
  lemma ThinkRung(content: string)
    requires !HasAnswerTag(Strip(content)) && HasThinkPair(Strip(content))
    ensures var c := Strip(content);
            var r := ParseResponse(content);
            exists i :: FirstOccurrence(c, ThinkClose, i)
              && r.thinking == Strip(RemoveAll(c[..i], ThinkOpen))
              && r.action == Strip(c[i + |ThinkClose|..])
  {
    var c := Strip(content);
    assert ParseResponse(content) == ThinkSplit(c);
    var i := ThinkSplitAt(c);
  }

  /** Rung 2's split, located: the index of the first `</think>` in `c`. */
  lemma ThinkSplitAt(c: string) returns (i: int)
    requires Contains(c, ThinkClose)
    ensures FirstOccurrence(c, ThinkClose, i)
    ensures ThinkSplit(c).thinking == Strip(RemoveAll(c[..i], ThinkOpen))
    ensures ThinkSplit(c).action == Strip(c[i + |ThinkClose|..])
  {
    var parts := SplitOnce(c, ThinkClose);
    i := |parts[0]|;
    assert c[..i] == parts[0];
    assert c[i + |ThinkClose|..] == parts[1];
  }

  /** Rung 3: without tags, the reply is split at the earliest action opener.
      The action starts with that opener, the thinking holds no opener at all,
      and together they are the whole reply. */
  lemma MarkerRung(content: string)
    requires !HasAnswerTag(Strip(content)) && !HasThinkPair(Strip(content))
    requires HasMarker(Strip(content))
    ensures var c := Strip(content);
            var r := ParseResponse(content);
            && (exists m :: m in Markers && StartsWith(r.action, m))
            && (forall m :: m in Markers ==> !Contains(r.thinking, m))
            && Partition(c, r)
  {
    var c := Strip(content);
    var pos := FirstMarkerPos(c);
    assert ParseResponse(content) == MarkerSplit(c, pos);
    var m :| m in Markers && OccursAt(c, m, pos);
    MarkerSplitShape(c, pos, m);
  }

  /** The shape of rung 3's split of a stripped reply at the first opener `m`. */
  lemma MarkerSplitShape(c: string, pos: int, m: string)
    requires IsStripped(c)
    requires m in Markers && OccursAt(c, m, pos)
    requires forall j :: 0 <= j < pos ==> !MarkerAt(c, j)
    ensures var r := MarkerSplit(c, pos);
            && StartsWith(r.action, m)
            && (forall m' :: m' in Markers ==> !Contains(r.thinking, m'))
            && Partition(c, r)
  {
    MarkerTail(c, pos, m);
    MarkerHead(c, pos);
  }

  /** Before the opener, the reply strips to a prefix free of openers. */
  lemma MarkerHead(c: string, pos: int)
    requires IsStripped(c) && 0 <= pos <= |c|
    requires forall j :: 0 <= j < pos ==> !MarkerAt(c, j)
    ensures var t := Strip(c[..pos]);
            && |t| <= pos && c[..|t|] == t && AllSpace(c[|t|..pos])
            && forall m' :: m' in Markers ==> !Contains(t, m')
  {
    HeadStripsToPrefix(c, pos);
    NoMarkerInHead(c, |Strip(c[..pos])|, pos);
  }

  /** From the opener on, the reply is already stripped and starts with it. */
  lemma MarkerTail(c: string, pos: int, m: string)
    requires IsStripped(c)
    requires m in Markers && OccursAt(c, m, pos)
    ensures MarkerSplit(c, pos).action == c[pos..] && StartsWith(c[pos..], m)
  {
    MarkerStartsWithNonSpace(m);
    assert c[pos] == c[pos..pos + |m|][0];
    TailIsStripped(c, pos);
    assert c[pos..][..|m|] == m;
  }

  /** A head of `c` that ends before the first opener holds no opener. */
  lemma NoMarkerInHead(c: string, k: int, pos: int)
    requires 0 <= k <= pos <= |c|
    requires forall j :: 0 <= j < pos ==> !MarkerAt(c, j)
    ensures forall m :: m in Markers ==> !Contains(c[..k], m)
  {
    forall m, j | m in Markers && 0 <= j <= k - |m|
      ensures !OccursAt(c[..k], m, j)
    {
      MarkerStartsWithNonSpace(m);
      assert !MarkerAt(c, j);
      assert c[..k][j..j + |m|] == c[j..j + |m|];
    }
  }

  /** Every action opener is non-empty and begins with a non-space character. */
  lemma MarkerStartsWithNonSpace(m: string)
    requires m in Markers
    ensures |m| > 0 && !IsSpace(m[0])
  {
    assert m == Markers[0] || m == Markers[1] || m == Markers[2];
  }

  /** A tail of a stripped string that starts on a non-space character is
      already stripped. */
  lemma TailIsStripped(c: string, pos: int)
    requires IsStripped(c) && 0 <= pos < |c| && !IsSpace(c[pos])
    ensures Strip(c[pos..]) == c[pos..]
  {
    StripOfStripped(c[pos..]);
  }

  /** Stripping a prefix of a stripped reply only drops whitespace at its end. */
  lemma HeadStripsToPrefix(c: string, pos: int)
    requires IsStripped(c) && 0 <= pos <= |c|
    ensures var t := Strip(c[..pos]);
            |t| <= pos && c[..|t|] == t && AllSpace(c[|t|..pos])
  {
    var s := c[..pos];
    assert |s| == 0 || !IsSpace(s[0]) by {
      if |s| > 0 {
        assert s[0] == c[0];
      }
    }
    StripNoLeadingSpace(s);
    RStripPrefix(c, pos);
  }

  /** `rstrip` of a prefix `c[..pos]` is a prefix of `c` followed, up to
      `pos`, by whitespace. */
  lemma RStripPrefix(c: string, pos: int)
    requires 0 <= pos <= |c|
    ensures var t := RStrip(c[..pos]);
            |t| <= pos && c[..|t|] == t && AllSpace(c[|t|..pos])
  {
    var s := c[..pos];
    var t := RStrip(s);
    assert s[..|t|] == c[..|t|];
    assert c[|t|..pos] == s[|t|..];
  }

  /** Rung 4: a reply with no tag and no action opener that begins with `{`
      is all action. The source's other two tests here, a leading `do(` or
      `finish(`, can never succeed: such a reply has an opener and was
      already taken by rung 3. */
  lemma BraceRung(content: string)
    requires !HasAnswerTag(Strip(content)) && !HasThinkPair(Strip(content))
    requires !HasMarker(Strip(content)) && StartsWith(Strip(content), "{")
    ensures ParseResponse(content) == Decoded("", Strip(content))
  {
  }

  /** Rung 4's tests for `do(` and `finish(`: a tag-free reply that begins with
      either opener is handled by rung 3, with empty thinking and the whole
      reply as its action. */
  lemma CallOpenerTakenByMarkerRung(content: string)
    requires !HasAnswerTag(Strip(content)) && !HasThinkPair(Strip(content))
    requires StartsWith(Strip(content), "do(") || StartsWith(Strip(content), "finish(")
    ensures HasMarker(Strip(content))
    ensures ParseResponse(content) == Decoded("", Strip(content))
  {
    var c := Strip(content);
    var m := if StartsWith(c, "do(") then "do(" else "finish(";
    assert m in Markers && OccursAt(c, m, 0);
    assert HasMarker(c);
    assert FirstMarkerPos(c) == 0;
    assert c[..0] == "";
    assert c[0..] == c;
    StripOfStripped(c);
  }

  /** Rung 5: a reply with no tag, no action opener and no leading `{` is all thinking. */
  lemma PlainRung(content: string)
    requires !HasAnswerTag(Strip(content)) && !HasThinkPair(Strip(content))
    requires !HasMarker(Strip(content)) && !StartsWith(Strip(content), "{")
    ensures ParseResponse(content) == Decoded(Strip(content), "")
  {
    var c := Strip(content);
    assert FirstMarkerPos(c) == |c|;
    assert !StartsWith(c, "do(") && !StartsWith(c, "finish(") by {
      StartsWithContains(c, "do(");
      StartsWithContains(c, "finish(");
      assert Markers[1] == "do(" && Markers[2] == "finish(";
    }
    assert Ladder(c) == Decoded(c, "");
  }

  /** Outside the two tagged rungs no text is lost: thinking and action are a
      prefix and a suffix of the stripped reply, separated only by whitespace. */
  lemma UntaggedPartition(content: string)
    requires !HasAnswerTag(Strip(content)) && !HasThinkPair(Strip(content))
    ensures Partition(Strip(content), ParseResponse(content))
  {
    var c := Strip(content);
    if HasMarker(c) {
      MarkerRung(content);
    } else if StartsWith(c, "{") {
      BraceRung(content);
      WholePartitions(c);
    } else {
      PlainRung(content);
      WholePartitions(c);
    }
  }

  /** All-action and all-thinking are both partitions of the whole reply. */
  lemma WholePartitions(c: string)
    ensures Partition(c, Decoded("", c)) && Partition(c, Decoded(c, ""))
  {
    var r1 := Decoded("", c);
    assert |r1.thinking| + |r1.action| <= |c|;
    assert c[..0] == r1.thinking;
    assert c[|c| - |c|..] == c;
    assert c[0..|c| - |c|] == [];
    var r2 := Decoded(c, "");
    assert c[..|c|] == c;
    assert c[|c| - 0..] == [];
    assert c[|c|..|c| - 0] == [];
  }

  /** Removing `</answer>` from `</</answer>answer>` leaves `</answer>`:
      the removal joins the text around the removed tag into a new one. */
  lemma RemovalRejoinsCloseTag()
    ensures RemoveAll("</" + AnswerClose + "answer>", AnswerClose) == AnswerClose
  {
    var t0 := "</" + AnswerClose + "answer>";
    assert |t0| == 18;
    assert t0[..9] != AnswerClose by {
      assert t0[..9][2] == AnswerClose[0] && AnswerClose[0] != AnswerClose[2];
    }
    var t1 := t0[1..];
    assert t1[..9] != AnswerClose by {
      assert t1[..9][0] == t0[1] && t0[1] == AnswerClose[1] && AnswerClose[1] != AnswerClose[0];
    }
    var t2 := t1[1..];
    assert t2[..9] == AnswerClose;
    var t3 := t2[9..];
    assert t3 == AnswerClose[2..];
    assert RemoveAll(t2, AnswerClose) == t3;
    assert RemoveAll(t0, AnswerClose) == [t0[0]] + ([t1[0]] + t3);
    assert [t0[0]] + ([t1[0]] + t3) == AnswerClose;
  }

  /** A reply that opens with `<answer>` splits there. */
  lemma SplitAtLeadingTag(t: string)
    ensures Contains(AnswerOpen + t, AnswerOpen)
    ensures SplitOnce(AnswerOpen + t, AnswerOpen) == ["", t]
  {
    var c := AnswerOpen + t;
    assert OccursAt(c, AnswerOpen, 0) by {
      assert c[0..|AnswerOpen|] == AnswerOpen;
    }
    var parts := SplitOnce(c, AnswerOpen);
    assert |parts[0]| == 0;
    assert parts[1] == t;
  }

  /** A stripped reply that opens with `<answer>` has empty thinking, and its
      action is the rest without `</answer>` tags. */
  lemma LeadingAnswerTag(t: string)
    requires IsStripped(AnswerOpen + t)
    ensures ParseResponse(AnswerOpen + t) == Decoded("", Strip(RemoveAll(t, AnswerClose)))
  {
    var c := AnswerOpen + t;
    StripOfStripped(c);
    SplitAtLeadingTag(t);
    var e: string := "";
    assert !Contains(e, ThinkOpen) && !Contains(e, ThinkClose);
    StripOfStripped(e);
    assert AnswerSplit(c) == Decoded(Strip(RemoveAll(RemoveAll(e, ThinkOpen), ThinkClose)), Strip(RemoveAll(t, AnswerClose)));
  }

  /** Removing `</answer>` is a single left-to-right pass, so the action can
      still hold the tag: for the reply `<answer></</answer>answer>` the
      action is `</answer>`. */
  lemma ActionMayKeepCloseTag()
    ensures var c := AnswerOpen + "</" + AnswerClose + "answer>";
            && ParseResponse(c) == Decoded("", AnswerClose)
            && Contains(ParseResponse(c).action, AnswerClose)
  {
    var t := "</" + AnswerClose + "answer>";
    var c := AnswerOpen + t;
    assert AnswerOpen + "</" + AnswerClose + "answer>" == c;
    assert IsStripped(c) by {
      assert c[0] == AnswerOpen[0] && c[|c| - 1] == t[|t| - 1];
    }
    LeadingAnswerTag(t);
    RemovalRejoinsCloseTag();
    assert IsStripped(AnswerClose) by {
      assert AnswerClose[0] == '<' && AnswerClose[8] == '>';
    }
    StripOfStripped(AnswerClose);
    StartsWithContains(AnswerClose, AnswerClose);
  }
}
