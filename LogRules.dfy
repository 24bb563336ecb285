/** The block/unblock toggle of the query-log page (`toggleBlocking` in
    client/src/components/Logs/index.js). The user's custom filtering rules
    are one text of `\n`-separated lines; the toggle either deletes the rule
    that contradicts the request, or appends the rule that carries it out,
    or leaves the text alone. */
module LogRules {
  import opened Wrappers
  import opened Text
  import opened LogEffects

  datatype ToggleKind = Block | Unblock

  /** `||domain^$important`: block the domain whatever the filter lists say. */
  function BlockRule(domain: string): string {
    "||" + domain + "^$important"
  }

  /** `@@||domain^$important`: the exception that allows the domain. */
  function ExceptionRule(domain: string): string {
    "@@" + BlockRule(domain)
  }

  /** The rule whose presence contradicts the request (`blockingRule`). */
  function ConflictingRule(kind: ToggleKind, domain: string): string {
    if kind == Block then ExceptionRule(domain) else BlockRule(domain)
  }

  /** The rule that carries the request out (`unblockingRule`). */
  function WantedRule(kind: ToggleKind, domain: string): string {
    if kind == Block then BlockRule(domain) else ExceptionRule(domain)
  }

  /** The two actions swap the same two rules, and the wanted rule of a block
      is the exception rule without its `@@`. */
  lemma RulesOfActions(domain: string)
    ensures ConflictingRule(Block, domain) == WantedRule(Unblock, domain) == "@@" + WantedRule(Block, domain)
    ensures ConflictingRule(Unblock, domain) == WantedRule(Block, domain)
  {
  }

  /** A domain without a line feed gives rules without one. */
  lemma RulesHaveNoLineFeed(kind: ToggleKind, domain: string)
    requires '\n' !in domain
    ensures '\n' !in ConflictingRule(kind, domain) && '\n' !in WantedRule(kind, domain)
  {
    var b := BlockRule(domain);
    assert forall i :: 0 <= i < |b| ==> b[i] != '\n' by {
      forall i | 0 <= i < |b| ensures b[i] != '\n' {
        if 2 <= i < 2 + |domain| { assert b[i] == domain[i - 2]; }
      }
    }
    var e := ExceptionRule(domain);
    assert forall i :: 0 <= i < |e| ==> e[i] != '\n' by {
      forall i | 0 <= i < |e| ensures e[i] != '\n' {
        if i >= 2 { assert e[i] == b[i - 2]; }
      }
    }
  }

  // ---------------------------------------------------------------------
  // Presence of a rule: the anchored regular expression (^|\n)RULE($|\n)
  // ---------------------------------------------------------------------

  /** `p` occurs at `i`, preceded by the start of the text or a line feed
      and followed by the end of the text or a line feed.  This is what the
      expression `(^|\n)` + escaped `p` + `($|\n)` matches (without the
      multi-line flag, `^` and `$` are the ends of the whole text). */
  predicate OnLineAt(s: string, p: string, i: nat) {
    OccursAt(s, p, i) &&
    (i == 0 || s[i - 1] == '\n') &&
    (i + |p| == |s| || s[i + |p|] == '\n')
  }

  predicate HasLine(s: string, p: string) {
    exists i :: 0 <= i <= |s| && OnLineAt(s, p, i)
  }

  /** Cutting a text around a line-break-free middle: the lines of
      `x + m + y` are the complete lines of `x`, then `m`, then the complete
      lines of `y`. */
  function LinesBefore(x: string): seq<string>
    requires x == [] || x[|x| - 1] == '\n'
  {
    if x == [] then [] else Split(x[..|x| - 1], '\n')
  }

  function LinesAfter(y: string): seq<string>
    requires y == [] || y[0] == '\n'
  {
    if y == [] then [] else Split(y[1..], '\n')
  }

  lemma LinesAroundNeither(x: string, m: string, y: string)
    requires x == [] && y == [] && '\n' !in m
    ensures Split(x + m + y, '\n') == LinesBefore(x) + [m] + LinesAfter(y)
  {
    assert x + m + y == m;
    SplitNoSep(m, '\n');
  }

  lemma LinesAroundAfter(x: string, m: string, y: string)
    requires x == [] && y != [] && y[0] == '\n' && '\n' !in m
    ensures Split(x + m + y, '\n') == LinesBefore(x) + [m] + LinesAfter(y)
  {
    assert x + m + y == m + ['\n'] + y[1..] by {
      assert y == ['\n'] + y[1..];
    }
    assert LinesBefore(x) == [] && LinesAfter(y) == Split(y[1..], '\n');
    SplitConcat(m, y[1..], '\n');
    SplitNoSep(m, '\n');
  }

  lemma LinesAroundBefore(x: string, m: string, y: string)
    requires x != [] && x[|x| - 1] == '\n' && y == [] && '\n' !in m
    ensures Split(x + m + y, '\n') == LinesBefore(x) + [m] + LinesAfter(y)
  {
    assert x + m + y == x[..|x| - 1] + ['\n'] + m;
    SplitConcat(x[..|x| - 1], m, '\n');
    SplitNoSep(m, '\n');
  }

  lemma LinesAroundBoth(x: string, m: string, y: string)
    requires x != [] && x[|x| - 1] == '\n' && y != [] && y[0] == '\n' && '\n' !in m
    ensures Split(x + m + y, '\n') == LinesBefore(x) + [m] + LinesAfter(y)
  {
    var head, tail := x[..|x| - 1], y[1..];
    var mid := m + ['\n'] + tail;
    assert x + m + y == head + ['\n'] + mid by {
      assert x == head + ['\n'];
      assert y == ['\n'] + tail;
    }
    assert Split(x + m + y, '\n') == Split(head, '\n') + Split(mid, '\n') by {
      SplitConcat(head, mid, '\n');
    }
    assert Split(mid, '\n') == [m] + Split(tail, '\n') by {
      SplitConcat(m, tail, '\n');
      SplitNoSep(m, '\n');
    }
    assert LinesBefore(x) == Split(head, '\n') && LinesAfter(y) == Split(tail, '\n');
  }

  lemma LinesAround(x: string, m: string, y: string)
    requires x == [] || x[|x| - 1] == '\n'
    requires y == [] || y[0] == '\n'
    requires '\n' !in m
    ensures Split(x + m + y, '\n') == LinesBefore(x) + [m] + LinesAfter(y)
  {
    if x == [] && y == [] {
      LinesAroundNeither(x, m, y);
    } else if x == [] {
      LinesAroundAfter(x, m, y);
    } else if y == [] {
      LinesAroundBefore(x, m, y);
    } else {
      LinesAroundBoth(x, m, y);
    }
  }

  lemma AroundOccurrence(s: string, p: string, i: nat)
    requires OnLineAt(s, p, i)
    ensures s == s[..i] + p + s[i + |p|..]
    ensures s[..i] == [] || s[..i][i - 1] == '\n'
    ensures s[i + |p|..] == [] || s[i + |p|..][0] == '\n'
  {
  }

  /** An anchored occurrence splits the text into the lines before it, the
      rule itself and the lines after it; deleting the occurrence's text
      leaves an empty line in its place and every other line as it was. */
  lemma LineAtIndex(s: string, p: string, i: nat)
    requires '\n' !in p && OnLineAt(s, p, i)
    ensures var j := |LinesBefore(s[..i])|;
      j < |Split(s, '\n')| && Split(s, '\n')[j] == p &&
      Split(s[..i] + s[i + |p|..], '\n') == Split(s, '\n')[j := ""]
  {
    var x, y := s[..i], s[i + |p|..];
    AroundOccurrence(s, p, i);
    var before, after := LinesBefore(x), LinesAfter(y);
    assert Split(s, '\n') == before + [p] + after by {
      LinesAround(x, p, y);
    }
    assert Split(x + y, '\n') == before + [""] + after by {
      LinesAround(x, "", y);
      assert x + "" + y == x + y;
    }
    ReplaceMiddle(before, p, after);
  }

  lemma ReplaceMiddle(a: seq<string>, m: string, b: seq<string>)
    ensures |a| < |a + [m] + b| && (a + [m] + b)[|a|] == m
    ensures (a + [m] + b)[|a| := ""] == a + [""] + b
  {
  }

  lemma {:induction false} LineOfSplitIsAnchored(s: string, p: string)
    requires p in Split(s, '\n')
    ensures HasLine(s, p)
    decreases |s|
  {
    match FirstIndexOf(s, '\n')
    case None =>
      SplitNoSep(s, '\n');
      assert OnLineAt(s, p, 0);
    case Some(k) =>
      SplitAtFirst(s, '\n', k);
      if p == s[..k] {
        assert OnLineAt(s, p, 0);
      } else {
        var t := s[k + 1..];
        assert p in Split(t, '\n');
        LineOfSplitIsAnchored(t, p);
        var i :| 0 <= i <= |t| && OnLineAt(t, p, i);
        ShiftLine(s, k, p, i);
      }
  }

  /** A line of the text after a line feed is a line of the whole text. */
  lemma ShiftLine(s: string, k: nat, p: string, i: nat)
    requires k < |s| && s[k] == '\n'
    requires OnLineAt(s[k + 1..], p, i)
    ensures OnLineAt(s, p, k + 1 + i)
  {
    var t := s[k + 1..];
    assert t[i..i + |p|] == s[k + 1 + i..k + 1 + i + |p|];
    if i > 0 {
      assert t[i - 1] == s[k + i];
    }
    if i + |p| < |t| {
      assert t[i + |p|] == s[k + 1 + i + |p|];
    }
  }

  /** For a rule without a line feed, the anchored expression matches exactly
      when the rule is one of the `\n`-separated lines. */
  lemma HasLineIffLine(s: string, p: string)
    requires '\n' !in p
    ensures HasLine(s, p) <==> p in Split(s, '\n')
  {
    if HasLine(s, p) {
      var i :| 0 <= i <= |s| && OnLineAt(s, p, i);
      LineAtIndex(s, p, i);
    }
    if p in Split(s, '\n') {
      LineOfSplitIsAnchored(s, p);
    }
  }

  // ---------------------------------------------------------------------
  // The toggle
  // ---------------------------------------------------------------------

  /** `"\n"` unless the text already ends with one; lodash's `endsWith` is
      false on the empty text, so an empty rule list gets a `"\n"` too. */
  function LineEnding(rules: string): string {
    if EndsWith(rules, "\n") then "" else "\n"
  }

  /** The rules followed by their line ending always end with a line feed;
      the ending is empty exactly when they already do, and is a line feed
      for the empty list. */
  lemma LineEndingTerminates(rules: string)
    ensures var r := LineEnding(rules);
      EndsWith(rules + r, "\n") && |r| <= 1 &&
      (r == "" <==> EndsWith(rules, "\n")) &&
      (rules == [] ==> r == "\n")
  {
    if EndsWith(rules, "\n") {
      assert rules + "" == rules;
    } else {
      assert (rules + "\n")[|rules|..] == "\n";
    }
  }

  /** The text handed to `setRules`, or `None` when `setRules` is not
      called. */
  function Toggle(rules: string, domain: string, kind: ToggleKind): (r: Option<string>)
    ensures r.None? <==> !HasLine(rules, ConflictingRule(kind, domain)) && HasLine(rules, WantedRule(kind, domain))
  {
    var remove := ConflictingRule(kind, domain);
    var add := WantedRule(kind, domain);
    if HasLine(rules, remove) then Some(RemoveFirst(rules, remove))
    else if !HasLine(rules, add) then Some(rules + LineEnding(rules) + add + "\n")
    else None
  }

  /** Everything the handler does, in order: set the rules and show a notice
      when something changed, then reload the filtering status in every
      case. */
  function ToggleEffects(rules: string, domain: string, kind: ToggleKind): (e: seq<Effect>)
    ensures |e| > 0 && e[|e| - 1] == GetFilteringStatus
    ensures Toggle(rules, domain, kind).None? <==> e == [GetFilteringStatus]
    ensures Toggle(rules, domain, kind).Some? ==>
      |e| == 3 && e[0] == SetRules(Toggle(rules, domain, kind).value) &&
      e[1] == (if HasLine(rules, ConflictingRule(kind, domain))
               then SuccessToast(RuleRemoved, ConflictingRule(kind, domain))
               else SuccessToast(RuleAdded, WantedRule(kind, domain)))
  {
    match Toggle(rules, domain, kind)
    case None => [GetFilteringStatus]
    case Some(next) =>
      var toast :=
        if HasLine(rules, ConflictingRule(kind, domain))
        then SuccessToast(RuleRemoved, ConflictingRule(kind, domain))
        else SuccessToast(RuleAdded, WantedRule(kind, domain));
      [SetRules(next), toast, GetFilteringStatus]
  }

  /** When the contradicting rule is a line, the first occurrence of its text
      (anywhere, not necessarily on a line of its own) is deleted and nothing
      is added. */
  lemma ToggleDeletesFirstOccurrence(rules: string, domain: string, kind: ToggleKind)
    requires HasLine(rules, ConflictingRule(kind, domain))
    ensures var remove := ConflictingRule(kind, domain);
      exists k: nat :: OccursAt(rules, remove, k) &&
        (forall j: nat :: j < k ==> !OccursAt(rules, remove, j)) &&
        (forall i: nat :: OnLineAt(rules, remove, i) ==> k <= i) &&
        Toggle(rules, domain, kind) == Some(rules[..k] + rules[k + |remove|..])
  {
    var remove := ConflictingRule(kind, domain);
    ToggleRemoves(rules, domain, kind);
    var i :| 0 <= i <= |rules| && OnLineAt(rules, remove, i);
    RemoveFirstCutsFirst(rules, remove, i);
  }

  /** A present contradicting rule is removed, and only that happens. */
  lemma ToggleRemoves(rules: string, domain: string, kind: ToggleKind)
    requires HasLine(rules, ConflictingRule(kind, domain))
    ensures Toggle(rules, domain, kind) == Some(RemoveFirst(rules, ConflictingRule(kind, domain)))
  {
  }

  /** `RemoveFirst` cuts at the first occurrence, which comes no later than
      the one at `i`. */
  lemma RemoveFirstCutsFirst(s: string, p: string, i: nat)
    requires OccursAt(s, p, i)
    ensures var k := FirstOccurrence(s, p).value;
      FirstOccurrence(s, p).Some? && k <= i && OccursAt(s, p, k) &&
      (forall j: nat :: j < k ==> !OccursAt(s, p, j)) &&
      RemoveFirst(s, p) == s[..k] + s[k + |p|..]
  {
    var k := FirstOccurrence(s, p).value;
    assert OccursAt(s, p, k);
  }

  /** When that first occurrence is itself a whole line, exactly that line
      becomes empty and every other line is kept. */
  lemma ToggleEmptiesLine(rules: string, domain: string, kind: ToggleKind, k: nat)
    requires '\n' !in domain
    requires OnLineAt(rules, ConflictingRule(kind, domain), k)
    requires forall j: nat :: j < k ==> !OccursAt(rules, ConflictingRule(kind, domain), j)
    ensures exists j :: 0 <= j < |Split(rules, '\n')| && Split(rules, '\n')[j] == ConflictingRule(kind, domain) &&
                        Split(Toggle(rules, domain, kind).value, '\n') == Split(rules, '\n')[j := ""]
  {
    var remove := ConflictingRule(kind, domain);
    assert '\n' !in remove by {
      RulesHaveNoLineFeed(kind, domain);
    }
    ToggleCutsAt(rules, domain, kind, k);
    EmptiedLine(rules, remove, k, Toggle(rules, domain, kind).value);
  }

  /** Deleting the text of an anchored occurrence empties its line. */
  lemma EmptiedLine(s: string, p: string, i: nat, r: string)
    requires '\n' !in p && OnLineAt(s, p, i)
    requires r == s[..i] + s[i + |p|..]
    ensures exists j :: 0 <= j < |Split(s, '\n')| && Split(s, '\n')[j] == p &&
                        Split(r, '\n') == Split(s, '\n')[j := ""]
  {
    LineAtIndex(s, p, i);
  }

  lemma ToggleCutsAt(rules: string, domain: string, kind: ToggleKind, k: nat)
    requires OnLineAt(rules, ConflictingRule(kind, domain), k)
    requires forall j: nat :: j < k ==> !OccursAt(rules, ConflictingRule(kind, domain), j)
    ensures Toggle(rules, domain, kind) == Some(rules[..k] + rules[k + |ConflictingRule(kind, domain)|..])
  {
    assert HasLine(rules, ConflictingRule(kind, domain));
  }

  /** The lines after appending a line-feed-free rule and a line feed to a
      text that ends with one. */
  lemma AppendAfterLineFeed(rules: string, add: string)
    requires '\n' !in add && EndsWith(rules, "\n")
    ensures var oldLines := Split(rules, '\n');
      oldLines[|oldLines| - 1] == "" &&
      Split(rules + add + "\n", '\n') == oldLines[..|oldLines| - 1] + [add, ""]
  {
    var x := rules[..|rules| - 1];
    LastLineEmpty(rules);
    var oldLines := Split(rules, '\n');
    assert oldLines[..|oldLines| - 1] == Split(x, '\n');
    assert rules + add + "\n" == x + "\n" + add + "\n";
    AppendAfterOtherText(x, add);
  }

  /** A text that ends with a line feed has an empty last line, after the
      lines of the text before that line feed. */
  lemma LastLineEmpty(rules: string)
    requires EndsWith(rules, "\n")
    ensures rules == rules[..|rules| - 1] + "\n"
    ensures Split(rules, '\n') == Split(rules[..|rules| - 1], '\n') + [""]
  {
    DropLastChar(rules, '\n');
    SplitTrailingSep(rules[..|rules| - 1], '\n');
  }

  /** The lines after appending a line feed, the rule and a line feed. */
  lemma AppendAfterOtherText(rules: string, add: string)
    requires '\n' !in add
    ensures Split(rules + "\n" + add + "\n", '\n') == Split(rules, '\n') + [add, ""]
  {
    assert rules + "\n" + add + "\n" == rules + ['\n'] + (add + ['\n'] + "");
    SplitConcat(rules, add + ['\n'] + "", '\n');
    SplitConcat(add, "", '\n');
    SplitNoSep(add, '\n');
  }

  /** When neither rule is a line, the wanted rule is appended as a line of
      its own, followed by a line feed; a final empty line of the old text
      is taken up by it. */
  lemma ToggleAppendsLine(rules: string, domain: string, kind: ToggleKind)
    requires '\n' !in domain
    requires !HasLine(rules, ConflictingRule(kind, domain)) && !HasLine(rules, WantedRule(kind, domain))
    ensures Toggle(rules, domain, kind).Some?
    ensures var r := Toggle(rules, domain, kind).value;
      var oldLines := Split(rules, '\n');
      var add := WantedRule(kind, domain);
      r == rules + LineEnding(rules) + add + "\n" &&
      (EndsWith(rules, "\n") ==> oldLines[|oldLines| - 1] == "" && Split(r, '\n') == oldLines[..|oldLines| - 1] + [add, ""]) &&
      (!EndsWith(rules, "\n") ==> Split(r, '\n') == oldLines + [add, ""])
  {
    var add := WantedRule(kind, domain);
    RulesHaveNoLineFeed(kind, domain);
    if EndsWith(rules, "\n") {
      AppendAfterLineFeed(rules, add);
      assert LineEnding(rules) == "";
      assert rules + "" == rules;
    } else {
      AppendAfterOtherText(rules, add);
    }
  }

  /** After a toggle that finds neither rule, the wanted rule is a line and
      the contradicting one is not: no domain ends up with both overrides. */
  lemma ToggleLeavesOneOverride(rules: string, domain: string, kind: ToggleKind)
    requires '\n' !in domain
    requires !HasLine(rules, ConflictingRule(kind, domain)) && !HasLine(rules, WantedRule(kind, domain))
    ensures HasLine(Toggle(rules, domain, kind).value, WantedRule(kind, domain))
    ensures !HasLine(Toggle(rules, domain, kind).value, ConflictingRule(kind, domain))
  {
    var remove, add := ConflictingRule(kind, domain), WantedRule(kind, domain);
    var r := Toggle(rules, domain, kind).value;
    RulesHaveNoLineFeed(kind, domain);
    ToggleAppendsLine(rules, domain, kind);
    HasLineIffLine(rules, remove);
    HasLineIffLine(r, remove);
    HasLineIffLine(r, add);
    assert remove != add && remove != "";
    assert Split(r, '\n')[|Split(r, '\n')| - 2] == add;
  }

  /** Repeating the same request after it appended its rule changes nothing. */
  lemma ToggleTwiceIsNoOp(rules: string, domain: string, kind: ToggleKind)
    requires '\n' !in domain
    requires !HasLine(rules, ConflictingRule(kind, domain)) && !HasLine(rules, WantedRule(kind, domain))
    ensures Toggle(Toggle(rules, domain, kind).value, domain, kind) == None
  {
    ToggleLeavesOneOverride(rules, domain, kind);
  }

  /** An empty rule list gets a leading empty line before the new rule. */
  lemma ToggleOnEmpty(domain: string, kind: ToggleKind)
    ensures Toggle("", domain, kind) == Some("\n" + WantedRule(kind, domain) + "\n")
  {
    assert !HasLine("", ConflictingRule(kind, domain));
    assert !HasLine("", WantedRule(kind, domain));
    assert LineEnding("") == "\n";
    assert "" + "\n" == "\n";
  }

  /** Blocking and then unblocking from an empty list does not give the empty
      list back: two empty lines remain. */
  lemma BlockThenUnblockFromEmpty(domain: string)
    ensures Toggle(Toggle("", domain, Block).value, domain, Unblock) == Some("\n\n")
  {
    ToggleOnEmpty(domain, Block);
    var p := BlockRule(domain);
    assert ConflictingRule(Unblock, domain) == p && p[0] == '|';
    MiddleLine(p);
    ToggleCutsFirst("\n" + p + "\n", domain, Unblock, 1, 1);
  }

  /** A rule alone between two line feeds: it is the first occurrence, and
      cutting it leaves the two line feeds. */
  lemma MiddleLine(p: string)
    requires |p| > 0 && p[0] != '\n'
    ensures var s := "\n" + p + "\n";
      OnLineAt(s, p, 1) && OccursAt(s, p, 1) && (forall j: nat :: j < 1 ==> !OccursAt(s, p, j)) &&
      s[..1] + s[1 + |p|..] == "\n\n"
  {
    var s := "\n" + p + "\n";
    assert s[1..1 + |p|] == p;
    assert !OccursAt(s, p, 0) by {
      assert s[0] != p[0];
    }
    assert s[1 + |p|..] == "\n";
  }

  // ---------------------------------------------------------------------
  // The removal is not anchored
  // ---------------------------------------------------------------------

  /** Whenever the contradicting rule is a line, the text handed on is the
      old text with its first occurrence cut out. */
  lemma ToggleCutsFirst(rules: string, domain: string, kind: ToggleKind, i: nat, k: nat)
    requires OnLineAt(rules, ConflictingRule(kind, domain), i)
    requires OccursAt(rules, ConflictingRule(kind, domain), k)
    requires forall j: nat :: j < k ==> !OccursAt(rules, ConflictingRule(kind, domain), j)
    ensures Toggle(rules, domain, kind) == Some(rules[..k] + rules[k + |ConflictingRule(kind, domain)|..])
  {
    assert HasLine(rules, ConflictingRule(kind, domain));
  }

  /** Where the block rule's text sits in `@@RULE\nRULE`. */
  lemma ExceptionThenBlockLayout(e: string, b: string)
    requires e == "@@" + b && |b| > 0 && b[0] == '|'
    ensures var rules := e + "\n" + b;
      OnLineAt(rules, b, |e| + 1) && OccursAt(rules, b, 2) &&
      (forall j: nat :: j < 2 ==> !OccursAt(rules, b, j)) &&
      rules[..2] + rules[2 + |b|..] == "@@\n" + b
  {
    var rules := e + "\n" + b;
    assert rules[0] == '@' && rules[1] == '@';
    assert rules[2..2 + |b|] == b;
    assert rules[|e| + 1..] == b;
    assert rules[2 + |b|..] == "\n" + b;
  }

  /** With the exception rule on the line before the block rule, unblocking
      cuts the block rule's text out of the exception rule (whose text
      contains it), leaving `@@` there and the block rule in force. */
  lemma UnblockCutsIntoException(domain: string)
    ensures var rules := ExceptionRule(domain) + "\n" + BlockRule(domain);
      HasLine(rules, BlockRule(domain)) &&
      Toggle(rules, domain, Unblock) == Some("@@\n" + BlockRule(domain)) &&
      HasLine("@@\n" + BlockRule(domain), BlockRule(domain))
  {
    var b, e := BlockRule(domain), ExceptionRule(domain);
    assert b[0] == '|';
    ExceptionThenBlockLayout(e, b);
    var rules := e + "\n" + b;
    assert HasLine(rules, b) by {
      assert OnLineAt(rules, b, |e| + 1);
    }
    ToggleCutsFirst(rules, domain, Unblock, |e| + 1, 2);
    LineAfterMarker(b);
  }

  /** The rule after `@@` and a line feed is a line. */
  lemma LineAfterMarker(b: string)
    ensures HasLine("@@\n" + b, b)
  {
    var r := "@@\n" + b;
    assert r[3..] == b;
    assert OnLineAt(r, b, 3);
  }

  /** The least index at or after `from` where `p` stands on a line of its own. */
  function FindLineFrom(s: string, p: string, from: nat): (r: Option<nat>)
    ensures r.Some? ==> from <= r.value && OnLineAt(s, p, r.value)
    ensures r.Some? ==> forall j: nat :: from <= j < r.value ==> !OnLineAt(s, p, j)
    ensures r.None? ==> forall j: nat :: from <= j ==> !OnLineAt(s, p, j)
    decreases |s| - from
  {
    if from + |p| > |s| then None
    else if OnLineAt(s, p, from) then Some(from)
    else FindLineFrom(s, p, from + 1)
  }

  /** The toggle with the cut at the anchored match: the contradicting rule
      is cut out where the anchored expression found it first, on a line of
      its own. */
  function ToggleAnchored(rules: string, domain: string, kind: ToggleKind): (r: Option<string>)
    ensures !HasLine(rules, ConflictingRule(kind, domain)) ==> r == Toggle(rules, domain, kind)
    ensures HasLine(rules, ConflictingRule(kind, domain)) ==>
      FindLineFrom(rules, ConflictingRule(kind, domain), 0).Some? &&
      var k := FindLineFrom(rules, ConflictingRule(kind, domain), 0).value;
      r == Some(rules[..k] + rules[k + |ConflictingRule(kind, domain)|..])
  {
    var remove := ConflictingRule(kind, domain);
    match FindLineFrom(rules, remove, 0)
    case Some(k) => Some(rules[..k] + rules[k + |remove|..])
    case None => Toggle(rules, domain, kind)
  }

  /** Removing always empties exactly the line that holds the contradicting
      rule and keeps every other line. */
  lemma ToggleAnchoredEmptiesLine(rules: string, domain: string, kind: ToggleKind)
    requires '\n' !in domain
    requires HasLine(rules, ConflictingRule(kind, domain))
    ensures exists j :: 0 <= j < |Split(rules, '\n')| && Split(rules, '\n')[j] == ConflictingRule(kind, domain) &&
                        Split(ToggleAnchored(rules, domain, kind).value, '\n') == Split(rules, '\n')[j := ""]
  {
    var remove := ConflictingRule(kind, domain);
    RulesHaveNoLineFeed(kind, domain);
    var k := FindLineFrom(rules, remove, 0).value;
    assert ToggleAnchored(rules, domain, kind).value == rules[..k] + rules[k + |remove|..];
    EmptiedLine(rules, remove, k, ToggleAnchored(rules, domain, kind).value);
  }

  /** In `@@RULE\nRULE` the only anchored place of the block rule is the
      second line. */
  lemma ExceptionThenBlockLine(e: string, b: string)
    requires e == "@@" + b && |b| > 0 && b[0] == '|' && '\n' !in e
    ensures FindLineFrom(e + "\n" + b, b, 0) == Some(|e| + 1)
  {
    ExceptionThenBlockLayout(e, b);
  }

  /** On the example above the intended toggle keeps the exception rule and
      drops the block rule. */
  lemma ToggleAnchoredKeepsException(domain: string)
    requires '\n' !in domain
    ensures var rules := ExceptionRule(domain) + "\n" + BlockRule(domain);
      ToggleAnchored(rules, domain, Unblock) == Some(ExceptionRule(domain) + "\n")
  {
    var b, e := BlockRule(domain), ExceptionRule(domain);
    var rules := e + "\n" + b;
    assert ConflictingRule(Unblock, domain) == b;
    assert FindLineFrom(rules, b, 0) == Some(|e| + 1) by {
      RulesHaveNoLineFeed(Block, domain);
      ExceptionThenBlockLine(e, b);
    }
    CutLastLine(e, b);
  }

  /** Cutting the last line's text keeps everything up to its line feed. */
  lemma CutLastLine(e: string, b: string)
    ensures var rules := e + "\n" + b;
      rules[..|e| + 1] + rules[|e| + 1 + |b|..] == e + "\n"
  {
    var rules := e + "\n" + b;
    assert rules[..|e| + 1] == e + "\n";
    assert rules[|e| + 1 + |b|..] == "";
  }

  // ---------------------------------------------------------------------
  // At most one override per domain
  // ---------------------------------------------------------------------

  /** The two rules of a request differ, and neither is empty. */
  lemma RulesDiffer(kind: ToggleKind, domain: string)
    ensures ConflictingRule(kind, domain) != WantedRule(kind, domain)
    ensures ConflictingRule(kind, domain) != "" && WantedRule(kind, domain) != ""
  {
    assert |ExceptionRule(domain)| == |BlockRule(domain)| + 2;
  }

  /** In `@@RULERULE\nRULE` the block rule first occurs right after the
      `@@`, and stands alone on the second line. */
  lemma DoubledBlockLayout(e: string, b: string)
    requires e == "@@" + b && |b| > 0 && b[0] == '|'
    ensures var rules := e + b + "\n" + b;
      OnLineAt(rules, b, |e| + |b| + 1) && OccursAt(rules, b, 2) &&
      (forall j: nat :: j < 2 ==> !OccursAt(rules, b, j)) &&
      rules[..2] + rules[2 + |b|..] == e + "\n" + b
  {
    var rules := e + b + "\n" + b;
    assert rules[0] == '@' && rules[1] == '@';
    assert rules[2..2 + |b|] == b;
    assert rules[|e| + |b| + 1..] == b;
    assert rules[2 + |b|..] == b + "\n" + b;
  }

  /** The lines of `@@RULERULE\nRULE`: the exception rule is not one of them. */
  lemma DoubledBlockLines(e: string, b: string)
    requires e == "@@" + b && |b| > 0 && '\n' !in e
    ensures !HasLine(e + b + "\n" + b, e)
  {
    var rules := e + b + "\n" + b;
    assert '\n' !in e + b && '\n' !in b;
    assert Split(rules, '\n') == [e + b, b] by {
      assert rules == (e + b) + ['\n'] + b;
      SplitConcat(e + b, b, '\n');
      SplitNoSep(e + b, '\n');
      SplitNoSep(b, '\n');
    }
    assert e != e + b && e != b by {
      assert |e| == |b| + 2;
    }
    HasLineIffLine(rules, e);
  }

  /** As written, unblocking can leave a domain with both overrides. Only the
      block rule is a line of `@@RULERULE\nRULE`, but `replace` cuts its text
      out right after the `@@`, which joins `@@` and the rest of the first
      line into the exception rule: both rules are lines afterwards. */
  lemma UnblockLeavesBothOverrides(domain: string)
    requires '\n' !in domain
    ensures var b, e := BlockRule(domain), ExceptionRule(domain);
      var rules := e + b + "\n" + b;
      HasLine(rules, b) && !HasLine(rules, e) &&
      Toggle(rules, domain, Unblock) == Some(e + "\n" + b) &&
      HasLine(e + "\n" + b, e) && HasLine(e + "\n" + b, b)
  {
    var b, e := BlockRule(domain), ExceptionRule(domain);
    var rules := e + b + "\n" + b;
    assert b[0] == '|';
    assert ConflictingRule(Unblock, domain) == b;
    DoubledBlockLayout(e, b);
    assert HasLine(rules, b) by {
      assert OnLineAt(rules, b, |e| + |b| + 1);
    }
    assert !HasLine(rules, e) by {
      RulesHaveNoLineFeed(Block, domain);
      DoubledBlockLines(e, b);
    }
    ToggleCutsFirst(rules, domain, Unblock, |e| + |b| + 1, 2);
    TwoLines(e, b);
  }

  /** Both halves of `x\ny` are lines. */
  lemma TwoLines(x: string, y: string)
    ensures HasLine(x + "\n" + y, x) && HasLine(x + "\n" + y, y)
  {
    var s := x + "\n" + y;
    assert s[..|x|] == x && s[|x| + 1..] == y;
    assert OnLineAt(s, x, 0);
    assert OnLineAt(s, y, |x| + 1);
  }

  /** Emptying one line that is not `w` keeps `w` a line exactly when it was. */
  lemma UpdateKeepsOthers(s: seq<string>, j: nat, w: string)
    requires j < |s| && w != s[j] && w != ""
    ensures w in s[j := ""] <==> w in s
  {
    if w in s {
      var k :| 0 <= k < |s| && s[k] == w;
      assert s[j := ""][k] == w;
    }
    if w in s[j := ""] {
      var k :| 0 <= k < |s| && s[j := ""][k] == w;
      assert s[k] == w;
    }
  }

  /** The removal of the corrected toggle makes the wanted rule neither
      appear nor disappear. */
  lemma ToggleAnchoredRemovalKeepsWanted(rules: string, domain: string, kind: ToggleKind)
    requires '\n' !in domain
    requires HasLine(rules, ConflictingRule(kind, domain))
    ensures HasLine(ToggleAnchored(rules, domain, kind).value, WantedRule(kind, domain)) <==>
            HasLine(rules, WantedRule(kind, domain))
  {
    var c, w := ConflictingRule(kind, domain), WantedRule(kind, domain);
    var r := ToggleAnchored(rules, domain, kind).value;
    RulesHaveNoLineFeed(kind, domain);
    RulesDiffer(kind, domain);
    ToggleAnchoredEmptiesLine(rules, domain, kind);
    var lines := Split(rules, '\n');
    var j :| 0 <= j < |lines| && lines[j] == c && Split(r, '\n') == lines[j := ""];
    UpdateKeepsOthers(lines, j, w);
    HasLineIffLine(rules, w);
    HasLineIffLine(r, w);
  }

  /** The corrected toggle never gives a domain both overrides: if the rules
      did not hold both as lines, the new rules do not either. */
  lemma ToggleAnchoredLeavesOneOverride(rules: string, domain: string, kind: ToggleKind)
    requires '\n' !in domain
    requires !(HasLine(rules, ConflictingRule(kind, domain)) && HasLine(rules, WantedRule(kind, domain)))
    requires ToggleAnchored(rules, domain, kind).Some?
    ensures var r := ToggleAnchored(rules, domain, kind).value;
      !(HasLine(r, ConflictingRule(kind, domain)) && HasLine(r, WantedRule(kind, domain)))
  {
    if HasLine(rules, ConflictingRule(kind, domain)) {
      ToggleAnchoredRemovalKeepsWanted(rules, domain, kind);
    } else {
      ToggleLeavesOneOverride(rules, domain, kind);
    }
  }
}
