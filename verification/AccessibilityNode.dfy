/**
 What native/computer-use-linux/runtime.py reads from an AT-SPI node, and the pure decisions the
 renderer takes from it: which children are hidden, which panels are skipped, which are summarised.
 */
module AccessibilityNode {
  import opened Sequences
  import opened Strings

  datatype Info = Info(role: string, name: string, automationId: string, value: string, actions: seq<string>, selected: bool)

  // A slot is Absent when the toolkit reports a child it cannot hand out.
  datatype Slot = Absent | Present(node: Node)

  datatype Node = Node(info: Info, slots: seq<Slot>)

  // ---------- text ----------

  const WIDE_SPACES: set<char> :=
    {'\U{1c}', '\U{1d}', '\U{1e}', '\U{1f}', '\U{85}', '\U{a0}', '\U{1680}', '\U{2000}', '\U{2001}', '\U{2002}', '\U{2003}', '\U{2004}', '\U{2005}',
     '\U{2006}', '\U{2007}', '\U{2008}', '\U{2009}', '\U{200a}', '\U{2028}', '\U{2029}', '\U{202f}', '\U{205f}', '\U{3000}'}

  predicate IsSpace(c: char) { c == ' ' || '\t' <= c <= '\r' || c in WIDE_SPACES }

  // The same by code points
  lemma SpaceIff(c: char)
    ensures var n := c as int;
            IsSpace(c) <==> 9 <= n <= 13 || 28 <= n <= 32 || n == 133 || n == 160 || n == 5760 || 8192 <= n <= 8202 || n == 8232 || n == 8233
                            || n == 8239 || n == 8287 || n == 12288
  {
  }

  function StripLeft(s: string): string {
    if s != [] && IsSpace(s[0]) then StripLeft(s[1..]) else s
  }

  function StripRight(s: string): string {
    if s != [] && IsSpace(s[|s| - 1]) then StripRight(s[..|s| - 1]) else s
  }

  // The words of `s`; `word` is the one being read
  function Words(s: string, word: string): seq<string> {
    if s == [] then (if word == [] then [] else [word])
    else if IsSpace(s[0]) then (if word == [] then [] else [word]) + Words(s[1..], [])
    else Words(s[1..], word + [s[0]])
  }

  function Join(ws: seq<string>, separator: string): string {
    if ws == [] then "" else if |ws| == 1 then ws[0] else ws[0] + separator + Join(ws[1..], separator)
  }

  function Sanitize(s: string): string { Join(Words(s, []), " ") }

  predicate OccursAt(s: string, t: string, i: nat) { i + |t| <= |s| && s[i..i + |t|] == t }

  predicate Contains(s: string, t: string) {
    exists i :: 0 <= i <= |s| - |t| && OccursAt(s, t, i)
  }

  // ---------- roles and actions ----------

  const LABEL_ROLES: set<string> := {"label", "static", "static text", "text", "link"}
  const GENERIC_ROLES: set<string> := {"panel", "filler", "unknown", "section"}
  const PLAIN_ROLES: set<string> := GENERIC_ROLES + LABEL_ROLES + {"image"}
  const COMPACT_ROLES: set<string> :=
    {"button", "check box", "checkbox", "combo box", "heading", "link", "menu item", "page tab", "push button", "radio button"}
  const NOISY_ACTIONS: set<string> :=
    {"click", "press", "show default ui", "show alternate ui", "show menu", "scroll to visible", "raise"}

  function RoleKey(info: Info): string { Lower(info.role) }

  predicate IsNoisy(action: string) { Lower(StripLeft(StripRight(action))) in NOISY_ACTIONS }

  function MeaningfulActions(actions: seq<string>): seq<string> {
    if actions == [] then [] else (if IsNoisy(actions[0]) then [] else [actions[0]]) + MeaningfulActions(actions[1..])
  }

  function Title(info: Info): string { if info.name != "" then info.name else info.automationId }

  predicate Suppressed(info: Info) {
    (Title(info) != "" || Sanitize(info.value) != "") && RoleKey(info) in COMPACT_ROLES
  }

  // ---------- subtree text ----------

  // Every normalised label text of the subtree, in preorder, down to `levels` levels below the node
  function LabelTexts(node: Node, levels: int): seq<string>
    decreases node, |node.slots| + 1
  {
    if levels < 0 then [] else OwnTexts(node.info) + LabelTextsFrom(node, 0, levels - 1)
  }

  function LabelTextsFrom(node: Node, from: nat, levels: int): seq<string>
    requires from <= |node.slots|
    decreases node, |node.slots| - from
  {
    if from == |node.slots| then []
    else (if node.slots[from].Present? then LabelTexts(node.slots[from].node, levels) else []) + LabelTextsFrom(node, from + 1, levels)
  }

  function OwnTexts(info: Info): seq<string> {
    if RoleKey(info) in LABEL_ROLES then NonEmpty(Sanitize(info.name)) + NonEmpty(Sanitize(info.value)) else []
  }

  function NonEmpty(text: string): seq<string> { if text == "" then [] else [text] }

  predicate AllPlain(node: Node, levels: nat)
    decreases node, |node.slots| + 1
  {
    RoleKey(node.info) in PLAIN_ROLES && MeaningfulActions(node.info.actions) == []
    && forall i :: 0 <= i < |node.slots| && node.slots[i].Present? ==> levels > 0 && AllPlain(node.slots[i].node, levels - 1)
  }

  predicate HasLabel(node: Node) {
    RoleKey(node.info) in LABEL_ROLES || exists i :: 0 <= i < |node.slots| && node.slots[i].Present? && HasLabel(node.slots[i].node)
  }

  predicate IsPlainTextSubtree(node: Node) { AllPlain(node, 4) && HasLabel(node) }

  // ---------- collecting snippets ----------

  // The texts of `ts` not yet seen, once each, in order
  function Fresh(ts: seq<string>, seen: set<string>): seq<string> {
    if ts == [] then []
    else if ts[0] in seen then Fresh(ts[1..], seen)
    else [ts[0]] + Fresh(ts[1..], seen + {ts[0]})
  }

  function Clip(ts: seq<string>): seq<string> { seq(|ts|, i requires 0 <= i < |ts| => Take(ts[i], 80)) }

  // The first `limit` distinct label texts of the subtree, each cut to 80 characters
  function Snippets(node: Node, limit: nat, levels: nat): seq<string> {
    Clip(Take(Fresh(LabelTexts(node, levels), {}), limit))
  }

  lemma {:induction false} FreshConcat(a: seq<string>, b: seq<string>, seen: set<string>)
    ensures Fresh(a + b, seen) == Fresh(a, seen) + Fresh(b, seen + set t | t in a)
  {
    if a == [] {
      assert a + b == b && seen + (set t | t in a) == seen;
    } else {
      assert (a + b)[1..] == a[1..] + b;
      var next := if a[0] in seen then seen else seen + {a[0]};
      FreshConcat(a[1..], b, next);
      assert next + (set t | t in a[1..]) == seen + set t | t in a by {
        assert a == [a[0]] + a[1..];
      }
    }
  }

  // The nested `collect` of text_snippets, which stops as soon as `limit` texts are held
  class SnippetCollector {
    const limit: nat
    const maxDepth: nat
    var values: seq<string>
    var seen: set<string>
    ghost var heard: seq<string>   // the label texts of everything collected so far

    constructor (limit: nat, maxDepth: nat)
      ensures this.limit == limit && this.maxDepth == maxDepth && heard == [] && Valid()
    {
      this.limit, this.maxDepth := limit, maxDepth;
      values, seen, heard := [], {}, [];
    }

    ghost predicate Valid()
      reads this
    {
      values == Clip(Take(Fresh(heard, {}), limit))
      && (|values| < limit ==> seen == set t | t in heard)
    }

    // Once full, further texts change nothing.
    ghost method Skip(more: seq<string>)
      requires Valid() && |values| >= limit
      modifies this`heard
      ensures Valid() && heard == old(heard) + more
    {
      FreshConcat(heard, more, {});
      heard := heard + more;
    }

    method Offer(text: string)
      requires Valid() && |values| < limit && text != ""
      modifies this
      ensures Valid() && heard == old(heard) + [text]
    {
      FreshConcat(heard, [text], {});
      ghost var before := Fresh(heard, {});
      if text !in seen {
        seen := seen + {text};
        values := values + [Take(text, 80)];
        assert Fresh(heard + [text], {}) == before + [text];
        assert Clip(before + [text]) == Clip(before) + [Take(text, 80)];
      } else {
        assert Fresh(heard + [text], {}) == before;
      }
      heard := heard + [text];
    }

    method OfferOwn(info: Info)
      requires Valid() && |values| < limit
      modifies this
      ensures Valid() && heard == old(heard) + OwnTexts(info)
    {
      if RoleKey(info) in LABEL_ROLES {
        var name, value := Sanitize(info.name), Sanitize(info.value);
        if name != "" {
          Offer(name);
        }
        if value != "" {
          if |values| < limit {
            Offer(value);
          } else {
            Skip([value]);
          }
        }
      }
    }

    method Collect(candidate: Node, depth: nat)
      requires Valid()
      modifies this
      ensures Valid() && heard == old(heard) + LabelTexts(candidate, maxDepth - depth)
      decreases candidate, 1
    {
      if depth > maxDepth {
        assert old(heard) + [] == old(heard);
        return;
      }
      if |values| >= limit {
        Skip(LabelTexts(candidate, maxDepth - depth));
        return;
      }
      ghost var rest := LabelTextsFrom(candidate, 0, maxDepth - depth - 1);
      ConcatAssociates(heard, OwnTexts(candidate.info), rest);
      OfferOwn(candidate.info);
      CollectChildren(candidate, depth);
    }

    // The loop over the children of a candidate
    method CollectChildren(candidate: Node, depth: nat)
      requires Valid()
      modifies this
      ensures Valid() && heard == old(heard) + LabelTextsFrom(candidate, 0, maxDepth - depth - 1)
      decreases candidate, 0
    {
      ghost var levels := maxDepth - depth - 1;
      ghost var all := heard + LabelTextsFrom(candidate, 0, levels);
      for i := 0 to |candidate.slots|
        invariant Valid() && heard + LabelTextsFrom(candidate, i, levels) == all
      {
        if |values| >= limit {
          Skip(LabelTextsFrom(candidate, i, levels));
          return;
        }
        ghost var before := heard;
        if candidate.slots[i].Present? {
          Collect(candidate.slots[i].node, depth + 1);
          ConcatAssociates(before, LabelTexts(candidate.slots[i].node, levels), LabelTextsFrom(candidate, i + 1, levels));
        } else {
          assert [] + LabelTextsFrom(candidate, i + 1, levels) == LabelTextsFrom(candidate, i + 1, levels);
        }
      }
      assert heard + [] == heard;
    }
  }

  // text_snippets: stopping early never changes what is collected.
  method TextSnippets(node: Node, limit: nat, maxDepth: nat) returns (values: seq<string>)
    ensures values == Snippets(node, limit, maxDepth)
  {
    var collector := new SnippetCollector(limit, maxDepth);
    collector.Collect(node, 0);
    assert collector.heard == LabelTexts(node, maxDepth);
    values := collector.values;
  }
}
