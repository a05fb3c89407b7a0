/**
 * The image-generation client: the job payload is a template text in which
 * five placeholders are replaced, one after the other, by the user's
 * attributes; the job is then polled until its history record says it is
 * done, and the two result images become viewable URLs.
 *
 * The HTTP calls are not modelled: the job submission is a given
 * `Submission`, and the answers to the status requests are a given sequence
 * of `PollResponse`s, consumed one per request.
 */
module Comfy {
  import opened Wrappers
  import opened Strings

  const BaseUrl: string := "http://i-1.gpushare.com:14761"

  /** The user's attributes as the generation request carries them. */
  datatype GenerateRequest = GenerateRequest(mbti: string, zodiac: string, mood: string, name: string, alcohol: int)

  /** The two result images, front and back of the card. */
  datatype GenerateResponse = GenerateResponse(frontUrl: string, backUrl: string)

  // ---------------------------------------------------------------------------
  // `String.prototype.replace` with a string pattern
  // ---------------------------------------------------------------------------

  /** The characters that, after a `$`, make a replacement pattern (`$$`, `$&`, `` $` ``, `$'`). */
  predicate IsPatternChar(c: char)
  {
    c == '$' || c == '&' || c == '`' || c == '\''
  }

  /**
   * The replacement text that `replace` inserts for the replacement string
   * `rep` (ECMAScript GetSubstitution with a string pattern, so no capture
   * groups): `$$` inserts `$`, `$&` the matched text, `` $` `` the text before
   * the match, `$'` the text after it; any other `$` is kept as it is.
   */
  function Substitute(rep: string, matched: string, before: string, after: string): string
    decreases |rep|
  {
    if |rep| == 0 then ""
    else if rep[0] == '$' && |rep| >= 2 && IsPatternChar(rep[1]) then
      var inserted :=
        if rep[1] == '$' then "$"
        else if rep[1] == '&' then matched
        else if rep[1] == '`' then before
        else after;
      inserted + Substitute(rep[2..], matched, before, after)
    else [rep[0]] + Substitute(rep[1..], matched, before, after)
  }

  /** `rep` holds no replacement pattern, so `replace` inserts it as it is. */
  predicate IsLiteral(rep: string)
  {
    forall i :: 0 <= i < |rep| - 1 && rep[i] == '$' ==> !IsPatternChar(rep[i + 1])
  }

  lemma {:induction false} LiteralSubstitution(rep: string, matched: string, before: string, after: string)
    requires IsLiteral(rep)
    ensures Substitute(rep, matched, before, after) == rep
    decreases |rep|
  {
    if |rep| > 0 {
      assert IsLiteral(rep[1..]) by {
        forall i | 0 <= i < |rep[1..]| - 1 && rep[1..][i] == '$' ensures !IsPatternChar(rep[1..][i + 1]) {
          assert rep[i + 1] == '$';
        }
      }
      LiteralSubstitution(rep[1..], matched, before, after);
      assert rep == [rep[0]] + rep[1..];
    }
  }

  /** `s.replace(pat, rep)`: only the first occurrence of `pat` is replaced. */
  function ReplaceFirst(s: string, pat: string, rep: string): (r: string)
    ensures !Contains(s, pat) ==> r == s
    ensures forall i :: IsFirstOccurrence(s, pat, i) ==>
      r == s[..i] + Substitute(rep, pat, s[..i], s[i + |pat|..]) + s[i + |pat|..]
  {
    match FindFirst(s, pat)
    case None => s
    case Some(i) => s[..i] + Substitute(rep, pat, s[..i], s[i + |pat|..]) + s[i + |pat|..]
  }

  /** The alcohol placeholder's text: the number followed by `%`. */
  function AlcoholText(alcohol: int): (r: string)
    ensures |r| >= 2 && r[|r| - 1] == '%' && ParseInt(r[..|r| - 1]) == Some(alcohol)
    ensures '$' !in r
  {
    IntToStringRoundTrip(alcohol);
    var r := IntToString(alcohol) + "%";
    assert r[..|r| - 1] == IntToString(alcohol);
    r
  }

  /** The placeholders, in the order `createTextToImageWorkflow` replaces them. */
  const Placeholders: seq<string> := ["$MBTI", "$ZODIAC", "$MOOD", "$NAME", "$ALCOHOL"]

  /** The text each placeholder is replaced by, in the same order. */
  function Values(req: GenerateRequest): seq<string>
  {
    [req.mbti, req.zodiac, req.mood, req.name, AlcoholText(req.alcohol)]
  }

  /** `s.replace(pats[0], reps[0]).replace(pats[1], reps[1])...`, left to right. */
  function ReplaceAll(s: string, pats: seq<string>, reps: seq<string>): string
    requires |pats| == |reps|
    decreases |pats|
  {
    if pats == [] then s else ReplaceAll(ReplaceFirst(s, pats[0], reps[0]), pats[1..], reps[1..])
  }

  /** `createTextToImageWorkflow`: the template with its placeholders replaced one after the other. */
  function Workflow(template: string, req: GenerateRequest): string
  {
    ReplaceAll(template, Placeholders, Values(req))
  }

  /** `parts[0] + fill[0] + parts[1] + fill[1] + ... + parts[n]`. */
  function Interleave(parts: seq<string>, fill: seq<string>): string
    requires |parts| == |fill| + 1
    decreases |fill|
  {
    if fill == [] then parts[0] else parts[0] + fill[0] + Interleave(parts[1..], fill[1..])
  }

  lemma NoDollarIsLiteral(s: string)
    requires '$' !in s
    ensures IsLiteral(s)
  {
  }

  /** Replacing a `$` token that follows `$`-free text puts the literal value in its place. */
  lemma ReplaceTokenAfter(prefix: string, tok: string, rest: string, rep: string)
    requires |tok| > 0 && tok[0] == '$' && '$' !in prefix && IsLiteral(rep)
    ensures ReplaceFirst(prefix + tok + rest, tok, rep) == prefix + rep + rest
  {
    var s := prefix + tok + rest;
    FirstOccurrenceAfter(prefix, tok, rest);
    assert IsFirstOccurrence(s, tok, |prefix|);
    assert s[..|prefix|] == prefix;
    assert s[|prefix| + |tok|..] == rest;
    LiteralSubstitution(rep, tok, prefix, rest);
  }

  // ---------------------------------------------------------------------------
  // Filling the placeholders, whatever order the template holds them in
  // ---------------------------------------------------------------------------

  /** A placeholder: `$` followed by a name without `$`. */
  predicate IsToken(t: string)
  {
    |t| > 1 && t[0] == '$' && '$' !in t[1..]
  }

  /** Placeholders none of which is a prefix of another (so they are also distinct). */
  predicate TokenFamily(toks: seq<string>)
  {
    (forall k :: 0 <= k < |toks| ==> IsToken(toks[k]))
    && forall k, m :: 0 <= k < |toks| && 0 <= m < |toks| && k != m ==> !(toks[k] <= toks[m])
  }

  /** The value a slot receives: the value of its placeholder, or the slot itself when it is none of them. */
  function Lookup(slot: string, toks: seq<string>, vals: seq<string>): string
    requires |toks| == |vals|
    decreases |toks|
  {
    if toks == [] then slot
    else if slot == toks[0] then vals[0]
    else Lookup(slot, toks[1..], vals[1..])
  }

  /** Every slot given its value. */
  function Fill(slots: seq<string>, toks: seq<string>, vals: seq<string>): seq<string>
    requires |toks| == |vals|
  {
    seq(|slots|, j requires 0 <= j < |slots| => Lookup(slots[j], toks, vals))
  }

  /** Distinct placeholders: the `k`-th one receives the `k`-th value. */
  lemma {:induction false} LookupFinds(toks: seq<string>, vals: seq<string>, k: int)
    requires |toks| == |vals| && TokenFamily(toks) && 0 <= k < |toks|
    ensures Lookup(toks[k], toks, vals) == vals[k]
    decreases |toks|
  {
    if k > 0 {
      assert toks[k] != toks[0] by { assert !(toks[0] <= toks[k]); }
      TokenFamilyTail(toks);
      assert toks[1..][k - 1] == toks[k];
      LookupFinds(toks[1..], vals[1..], k - 1);
    }
  }

  /** Text without `$` is no placeholder, so it is its own value. */
  lemma {:induction false} LookupOfPlainText(slot: string, toks: seq<string>, vals: seq<string>)
    requires |toks| == |vals| && TokenFamily(toks) && '$' !in slot
    ensures Lookup(slot, toks, vals) == slot
    decreases |toks|
  {
    if toks != [] {
      assert slot != toks[0] by { assert toks[0][0] == '$'; }
      TokenFamilyTail(toks);
      LookupOfPlainText(slot, toks[1..], vals[1..]);
    }
  }

  lemma TokenFamilyTail(toks: seq<string>)
    requires TokenFamily(toks) && toks != []
    ensures TokenFamily(toks[1..])
  {
    forall k, m | 0 <= k < |toks| - 1 && 0 <= m < |toks| - 1 && k != m ensures !(toks[1..][k] <= toks[1..][m]) {
      assert toks[1..][k] == toks[k + 1] && toks[1..][m] == toks[m + 1];
    }
  }

  /** `parts[0] + slots[0] + ... + parts[n]` with the slots before the `i`-th cut off from those after it. */
  lemma {:induction false} InterleaveSplit(parts: seq<string>, slots: seq<string>, i: int)
    requires |parts| == |slots| + 1 && 0 <= i < |slots|
    ensures Interleave(parts, slots)
         == Interleave(parts[..i + 1], slots[..i]) + slots[i] + Interleave(parts[i + 1..], slots[i + 1..])
    decreases i
  {
    if i == 0 {
      assert parts[..1] == [parts[0]] && slots[..0] == [];
    } else {
      InterleaveSplit(parts[1..], slots[1..], i - 1);
      assert parts[..i + 1][1..] == parts[1..][..i] && slots[..i][1..] == slots[1..][..i - 1];
      assert parts[1..][i..] == parts[i + 1..] && slots[1..][i..] == slots[i + 1..];
      assert slots[..i][0] == slots[0] && parts[..i + 1][0] == parts[0];
    }
  }

  /**
   * The slots before the one being filled: plain text, or other placeholders
   * none of which is a prefix of `t` or has `t` as a prefix.
   */
  predicate ClearBefore(parts: seq<string>, slots: seq<string>, t: string)
  {
    |parts| == |slots| + 1
    && (forall j :: 0 <= j < |parts| ==> '$' !in parts[j])
    && forall j :: 0 <= j < |slots| ==>
         '$' !in slots[j] || (IsToken(slots[j]) && !(t <= slots[j]) && !(slots[j] <= t))
  }

  lemma ClearBeforeTail(parts: seq<string>, slots: seq<string>, t: string)
    requires ClearBefore(parts, slots, t) && slots != []
    ensures ClearBefore(parts[1..], slots[1..], t)
  {
    forall j | 0 <= j < |parts| - 1 ensures '$' !in parts[1..][j] {
      assert parts[1..][j] == parts[j + 1];
    }
    forall j | 0 <= j < |slots| - 1
      ensures '$' !in slots[1..][j] || (IsToken(slots[1..][j]) && !(t <= slots[1..][j]) && !(slots[1..][j] <= t))
    {
      assert slots[1..][j] == slots[j + 1];
    }
  }

  /** A placeholder does not occur inside text made of plain parts and other placeholders. */
  lemma {:induction false} NoEarlyOccurrence(parts: seq<string>, slots: seq<string>, t: string, after: string)
    requires ClearBefore(parts, slots, t) && IsToken(t)
    ensures forall j :: 0 <= j < |Interleave(parts, slots)| ==> !OccursAt(Interleave(parts, slots) + after, t, j)
    decreases |slots|
  {
    var s := Interleave(parts, slots) + after;
    if slots == [] {
      forall j | 0 <= j < |parts[0]| ensures !OccursAt(s, t, j) {
        assert s[j] == parts[0][j];
      }
    } else {
      var a := parts[0] + slots[0];
      var rest := Interleave(parts[1..], slots[1..]);
      assert s == a + (rest + after);
      ClearBeforeTail(parts, slots, t);
      NoEarlyOccurrence(parts[1..], slots[1..], t, after);
      forall j | 0 <= j < |a| + |rest| ensures !OccursAt(s, t, j) {
        if j < |parts[0]| {
          assert s[j] == parts[0][j];
        } else if j < |a| {
          var u := slots[0];
          var o := j - |parts[0]|;
          assert s[j] == u[o];
          if '$' !in u {
          } else if o == 0 {
            assert s[j..j + |u|] == u;
            NotWhereOtherOccurs(s, t, u, j);
          } else {
            assert u[o] == u[1..][o - 1];
          }
        } else {
          OccursAtShift(a, rest + after, t, j - |a|);
        }
      }
    }
  }

  /**
   * `replace` of the placeholder in slot `i` fills exactly that slot, when
   * everything before it is plain text or other placeholders and the value
   * holds no `$`.
   */
  lemma ReplaceSlot(parts: seq<string>, slots: seq<string>, i: int, v: string)
    requires 0 <= i < |slots| && |parts| == |slots| + 1 && IsToken(slots[i]) && '$' !in v
    requires ClearBefore(parts[..i + 1], slots[..i], slots[i])
    ensures ReplaceFirst(Interleave(parts, slots), slots[i], v) == Interleave(parts, slots[i := v])
  {
    var t := slots[i];
    var p := Interleave(parts[..i + 1], slots[..i]);
    var q := Interleave(parts[i + 1..], slots[i + 1..]);
    var s := Interleave(parts, slots);
    InterleaveSplit(parts, slots, i);
    InterleaveSplit(parts, slots[i := v], i);
    assert slots[i := v][..i] == slots[..i] && slots[i := v][i + 1..] == slots[i + 1..];
    assert s == p + (t + q);
    NoEarlyOccurrence(parts[..i + 1], slots[..i], t, t + q);
    assert s[|p|..|p| + |t|] == t;
    assert IsFirstOccurrence(s, t, |p|);
    assert s[..|p|] == p && s[|p| + |t|..] == q;
    NoDollarIsLiteral(v);
    LiteralSubstitution(v, t, p, q);
  }

  /**
   * The slots of a template: plain text or placeholders of `toks`, each
   * placeholder in exactly one slot, plain text between them, and values
   * without `$`.
   */
  predicate Arranged(parts: seq<string>, slots: seq<string>, toks: seq<string>, vals: seq<string>)
  {
    |parts| == |slots| + 1 && |toks| == |vals| && TokenFamily(toks)
    && (forall j :: 0 <= j < |slots| ==> '$' !in parts[j])
    && (forall j :: 0 <= j < |slots| ==> '$' !in slots[j] || slots[j] in toks)
    && (forall k :: 0 <= k < |toks| ==> toks[k] in slots)
    && (forall j, m :: 0 <= j < m < |slots| && slots[j] in toks ==> slots[j] != slots[m])
    && (forall k :: 0 <= k < |vals| ==> '$' !in vals[k])
  }

  /** Before the slot of the first placeholder, every other slot is plain text or a later placeholder. */
  lemma ArrangedClearBefore(parts: seq<string>, slots: seq<string>, toks: seq<string>, vals: seq<string>, i: int)
    requires Arranged(parts, slots, toks, vals) && toks != [] && 0 <= i < |slots| && slots[i] == toks[0]
    ensures ClearBefore(parts[..i + 1], slots[..i], slots[i])
  {
    var t := toks[0];
    var before := parts[..i + 1];
    forall j | 0 <= j < |before| ensures '$' !in before[j] {
      assert before[j] == parts[j];
    }
    forall j | 0 <= j < i
      ensures '$' !in slots[..i][j] || (IsToken(slots[..i][j]) && !(t <= slots[..i][j]) && !(slots[..i][j] <= t))
    {
      assert slots[..i][j] == slots[j];
      if slots[j] in toks {
        var k :| 0 <= k < |toks| && toks[k] == slots[j];
        assert k != 0;
      }
    }
  }

  /** After the first placeholder is filled, the rest of the template is arranged for the other placeholders. */
  lemma ArrangedStep(parts: seq<string>, slots: seq<string>, toks: seq<string>, vals: seq<string>, i: int)
    requires Arranged(parts, slots, toks, vals) && toks != [] && 0 <= i < |slots| && slots[i] == toks[0]
    ensures Arranged(parts, slots[i := vals[0]], toks[1..], vals[1..])
    ensures Fill(slots[i := vals[0]], toks[1..], vals[1..]) == Fill(slots, toks, vals)
  {
    var slots' := slots[i := vals[0]];
    TokenFamilyTail(toks);
    assert '$' !in vals[0];
    assert vals[0] !in toks by {
      forall k | 0 <= k < |toks| ensures toks[k] != vals[0] {
        assert toks[k][0] == '$';
      }
    }
    forall j | 0 <= j < |slots| ensures '$' !in slots'[j] || slots'[j] in toks[1..] {
      if j != i && slots[j] in toks {
        if j < i { assert slots[j] != slots[i]; } else { assert slots[i] != slots[j]; }
        var k :| 0 <= k < |toks| && toks[k] == slots[j];
        assert toks[1..][k - 1] == slots[j];
      }
    }
    forall k | 0 <= k < |toks| - 1 ensures toks[1..][k] in slots' {
      var t := toks[k + 1];
      assert t != toks[0] by { assert !(toks[0] <= toks[k + 1]); }
      var m :| 0 <= m < |slots| && slots[m] == t;
      assert slots'[m] == t;
    }
    forall j, m | 0 <= j < m < |slots| && slots'[j] in toks[1..] ensures slots'[j] != slots'[m] {
      if j == i {
      } else if m == i {
        var k :| 0 <= k < |toks[1..]| && toks[1..][k] == slots'[j];
        assert toks[1..][k][0] == '$';
      } else {
        assert slots[j] in toks;
      }
    }
    forall k | 0 <= k < |vals| - 1 ensures '$' !in vals[1..][k] {
      assert vals[1..][k] == vals[k + 1];
    }
    forall j | 0 <= j < |slots| ensures Fill(slots', toks[1..], vals[1..])[j] == Fill(slots, toks, vals)[j] {
      if j == i {
        LookupOfPlainText(vals[0], toks[1..], vals[1..]);
      } else if j < i {
        assert slots[j] != slots[i];
      } else {
        assert slots[i] != slots[j];
      }
    }
  }

  /**
   * Placeholders replaced one after the other, each by its value: whatever
   * order the template holds them in, every slot ends up with the value of
   * its own placeholder.
   */
  lemma {:induction false} FillInAnyOrder(parts: seq<string>, slots: seq<string>, toks: seq<string>, vals: seq<string>)
    requires Arranged(parts, slots, toks, vals)
    ensures ReplaceAll(Interleave(parts, slots), toks, vals) == Interleave(parts, Fill(slots, toks, vals))
    decreases |toks|
  {
    if toks == [] {
      assert Fill(slots, toks, vals) == slots;
    } else {
      var i :| 0 <= i < |slots| && slots[i] == toks[0];
      assert IsToken(slots[i]);
      ArrangedClearBefore(parts, slots, toks, vals, i);
      ReplaceSlot(parts, slots, i, vals[0]);
      ArrangedStep(parts, slots, toks, vals, i);
      FillInAnyOrder(parts, slots[i := vals[0]], toks[1..], vals[1..]);
    }
  }

  /** Two texts that differ at a common index: neither is a prefix of the other. */
  lemma DifferAt(t: string, u: string, n: nat)
    requires n < |t| && n < |u| && t[n] != u[n]
    ensures !(t <= u) && !(u <= t)
  {
    PrefixAgrees(t, u, n);
    PrefixAgrees(u, t, n);
  }

  lemma PrefixAgrees(t: string, u: string, n: nat)
    requires n < |t| && n < |u|
    ensures t <= u ==> t[n] == u[n]
  {
    if t <= u { assert u[..|t|][n] == u[n]; }
  }

  lemma PlaceholdersAreTokens()
    ensures forall k :: 0 <= k < |Placeholders| ==> IsToken(Placeholders[k])
  {
    assert IsToken("$MBTI") by { assert "$MBTI"[1..] == "MBTI"; }
    assert IsToken("$ZODIAC") by { assert "$ZODIAC"[1..] == "ZODIAC"; }
    assert IsToken("$MOOD") by { assert "$MOOD"[1..] == "MOOD"; }
    assert IsToken("$NAME") by { assert "$NAME"[1..] == "NAME"; }
    assert IsToken("$ALCOHOL") by { assert "$ALCOHOL"[1..] == "ALCOHOL"; }
  }

  /** The five placeholders are tokens, none a prefix of another. */
  lemma PlaceholdersFormFamily()
    ensures TokenFamily(Placeholders)
  {
    var ps := Placeholders;
    PlaceholdersAreTokens();
    DifferAt(ps[0], ps[1], 1); DifferAt(ps[0], ps[2], 2); DifferAt(ps[0], ps[3], 1); DifferAt(ps[0], ps[4], 1);
    DifferAt(ps[1], ps[2], 1); DifferAt(ps[1], ps[3], 1); DifferAt(ps[1], ps[4], 1);
    DifferAt(ps[2], ps[3], 1); DifferAt(ps[2], ps[4], 1);
    DifferAt(ps[3], ps[4], 1);
  }

  /** The order of the placeholders in a template: each of the five exactly once. */
  predicate IsArrangement(order: seq<string>)
  {
    |order| == 5
    && (forall j :: 0 <= j < 5 ==> order[j] in Placeholders)
    && (forall k :: 0 <= k < 5 ==> Placeholders[k] in order)
    && (forall j, m :: 0 <= j < m < 5 ==> order[j] != order[m])
  }

  lemma ValuesHaveNoDollar(req: GenerateRequest)
    requires '$' !in req.mbti && '$' !in req.zodiac && '$' !in req.mood && '$' !in req.name
    ensures |Values(req)| == 5 && forall k :: 0 <= k < 5 ==> '$' !in Values(req)[k]
  {
    var v := Values(req);
    assert v[0] == req.mbti && v[1] == req.zodiac && v[2] == req.mood && v[3] == req.name;
    assert '$' !in v[4];
  }

  /**
   * A template holding each of the five placeholders once, in any order,
   * with no other `$` before the last one: every placeholder receives exactly
   * the field it names, given field values without `$`.
   */
  lemma WorkflowFillsEachPlaceholder(parts: seq<string>, order: seq<string>, req: GenerateRequest)
    requires |parts| == 6 && forall j :: 0 <= j < 5 ==> '$' !in parts[j]
    requires IsArrangement(order)
    requires '$' !in req.mbti && '$' !in req.zodiac && '$' !in req.mood && '$' !in req.name
    ensures var filled := Fill(order, Placeholders, Values(req));
      && Workflow(Interleave(parts, order), req) == Interleave(parts, filled)
      && forall j, k :: 0 <= j < 5 && 0 <= k < 5 && order[j] == Placeholders[k] ==> filled[j] == Values(req)[k]
  {
    PlaceholdersFormFamily();
    ValuesHaveNoDollar(req);
    assert Arranged(parts, order, Placeholders, Values(req));
    FillInAnyOrder(parts, order, Placeholders, Values(req));
    forall j, k | 0 <= j < 5 && 0 <= k < 5 && order[j] == Placeholders[k]
      ensures Fill(order, Placeholders, Values(req))[j] == Values(req)[k]
    {
      LookupFinds(Placeholders, Values(req), k);
    }
  }

  lemma AlcoholTextOfForty()
    ensures AlcoholText(40) == "40%"
  {
    assert NatToString(4) == "4";
    assert IntToString(40) == "40";
  }

  /** The order of the test's nodes "57" to "61": name, MBTI, zodiac, mood, alcohol. */
  const TestOrder: seq<string> := ["$NAME", "$MBTI", "$ZODIAC", "$MOOD", "$ALCOHOL"]

  lemma TestOrderIsArrangement()
    ensures IsArrangement(TestOrder)
    ensures TestOrder == [Placeholders[3], Placeholders[0], Placeholders[1], Placeholders[2], Placeholders[4]]
  {
    PlaceholdersFormFamily();
    var ps := Placeholders;
    assert TestOrder == [ps[3], ps[0], ps[1], ps[2], ps[4]];
    forall j, m | 0 <= j < m < 5 ensures TestOrder[j] != TestOrder[m] {
      assert !(ps[0] <= ps[1]);
    }
  }

  /** A template in the test's node order: each node receives the field of its placeholder. */
  lemma WorkflowInTestOrder(parts: seq<string>, req: GenerateRequest)
    requires |parts| == 6 && forall j :: 0 <= j < 5 ==> '$' !in parts[j]
    requires '$' !in req.mbti && '$' !in req.zodiac && '$' !in req.mood && '$' !in req.name
    ensures Workflow(Interleave(parts, TestOrder), req)
         == Interleave(parts, [req.name, req.mbti, req.zodiac, req.mood, AlcoholText(req.alcohol)])
  {
    TestOrderIsArrangement();
    WorkflowFillsEachPlaceholder(parts, TestOrder, req);
    var filled := Fill(TestOrder, Placeholders, Values(req));
    var v := Values(req);
    assert filled[0] == v[3] && filled[1] == v[0] && filled[2] == v[1] && filled[3] == v[2] && filled[4] == v[4];
    FiveElements(filled, v[3], v[0], v[1], v[2], v[4]);
  }

  lemma FiveElements(s: seq<string>, a: string, b: string, c: string, d: string, e: string)
    requires |s| == 5 && s[0] == a && s[1] == b && s[2] == c && s[3] == d && s[4] == e
    ensures s == [a, b, c, d, e]
  {
  }

  /**
   * The request of the repository's test, in a template whose nodes "57" to
   * "61" hold the name, MBTI, zodiac, mood and alcohol placeholders in that
   * order: each node receives its field, the alcohol as "40%". The test
   * object has no zodiac or mood, so those two are whatever text stands in
   * for them (JavaScript inserts "undefined").
   */
  lemma WorkflowOnTestRequest(parts: seq<string>, zodiac: string, mood: string)
    requires |parts| == 6 && forall j :: 0 <= j < 5 ==> '$' !in parts[j]
    requires '$' !in zodiac && '$' !in mood
    ensures Workflow(Interleave(parts, TestOrder), GenerateRequest("ESFP", zodiac, mood, "开开心心坐大牢", 40))
         == Interleave(parts, ["开开心心坐大牢", "ESFP", zodiac, mood, "40%"])
  {
    WorkflowInTestOrder(parts, GenerateRequest("ESFP", zodiac, mood, "开开心心坐大牢", 40));
    AlcoholTextOfForty();
  }

  lemma ReplaceTwice(s: string, t1: string, t2: string, v1: string, v2: string)
    ensures ReplaceAll(s, [t1, t2], [v1, v2]) == ReplaceFirst(ReplaceFirst(s, t1, v1), t2, v2)
  {
    var once := ReplaceFirst(s, t1, v1);
    assert [t1, t2][1..] == [t2] && [v1, v2][1..] == [v2];
    assert ReplaceAll(s, [t1, t2], [v1, v2]) == ReplaceAll(once, [t2], [v2]);
    assert ReplaceAll(once, [t2], [v2]) == ReplaceAll(ReplaceFirst(once, t2, v2), [], []);
  }

  /** A value whose only `$` starts a placeholder name holds no replacement pattern. */
  lemma PlaceholderInValueIsLiteral(a: string, b: string)
    requires '$' !in a && '$' !in b
    ensures IsLiteral(a + "$ZODIAC" + b)
  {
    var v := a + "$ZODIAC" + b;
    forall i | 0 <= i < |v| - 1 && v[i] == '$' ensures !IsPatternChar(v[i + 1]) {
      if |a| <= i < |a| + 7 {
        assert v[i + 1] == "$ZODIAC"[i - |a| + 1];
      }
    }
  }

  /** The first token is replaced by a value that holds the second token. */
  lemma CaptureFirstStep(p: string, q: string, r: string, a: string, b: string, t1: string, t2: string)
    requires |t1| > 0 && t1[0] == '$' && '$' !in p && IsLiteral(a + t2 + b)
    ensures ReplaceFirst(p + t1 + q + t2 + r, t1, a + t2 + b) == (p + a) + t2 + (b + q + t2 + r)
  {
    assert p + t1 + q + t2 + r == p + t1 + (q + t2 + r);
    ReplaceTokenAfter(p, t1, q + t2 + r, a + t2 + b);
    assert p + (a + t2 + b) + (q + t2 + r) == (p + a) + t2 + (b + q + t2 + r);
  }

  /** Two `$` tokens replaced in turn, the first by a value that holds the second. */
  lemma CaptureByEarlierValue(p: string, q: string, r: string, a: string, b: string, zodiac: string, t1: string, t2: string)
    requires |t1| > 0 && t1[0] == '$' && |t2| > 0 && t2[0] == '$'
    requires '$' !in p && '$' !in a && IsLiteral(a + t2 + b) && IsLiteral(zodiac)
    ensures ReplaceFirst(ReplaceFirst(p + t1 + q + t2 + r, t1, a + t2 + b), t2, zodiac) == p + a + zodiac + b + q + t2 + r
  {
    CaptureFirstStep(p, q, r, a, b, t1, t2);
    ReplaceTokenAfter(p + a, t2, b + q + t2 + r, zodiac);
    assert (p + a) + zodiac + (b + q + t2 + r) == p + a + zodiac + b + q + t2 + r;
  }

  /**
   * Replacement is sequential: a value that itself holds a later placeholder
   * receives that later value, and the template's own later placeholder is
   * left in place.
   */
  lemma EarlierValueCapturesLaterPlaceholder(p: string, q: string, r: string, a: string, b: string, zodiac: string)
    requires '$' !in p && '$' !in q && '$' !in a && '$' !in b && '$' !in zodiac
    ensures ReplaceAll(p + "$MBTI" + q + "$ZODIAC" + r, ["$MBTI", "$ZODIAC"], [a + "$ZODIAC" + b, zodiac])
         == p + a + zodiac + b + q + "$ZODIAC" + r
  {
    PlaceholderInValueIsLiteral(a, b);
    NoDollarIsLiteral(zodiac);
    CaptureByEarlierValue(p, q, r, a, b, zodiac, "$MBTI", "$ZODIAC");
    ReplaceTwice(p + "$MBTI" + q + "$ZODIAC" + r, "$MBTI", "$ZODIAC", a + "$ZODIAC" + b, zodiac);
  }

  /** A value holding `$&` receives the placeholder itself: `replace` expands replacement patterns. */
  lemma ReplacementPatternsExpand(p: string, rest: string)
    requires '$' !in p
    ensures ReplaceFirst(p + "$NAME" + rest, "$NAME", "<$&>") == p + "<$NAME>" + rest
  {
    var s := p + "$NAME" + rest;
    FirstOccurrenceAfter(p, "$NAME", rest);
    assert IsFirstOccurrence(s, "$NAME", |p|);
    assert s[..|p|] == p;
    assert s[|p| + 5..] == rest;
    var rep := "<$&>";
    assert rep[1..][2..] == ">";
    assert Substitute(">", "$NAME", p, rest) == ">";
    assert Substitute(rep, "$NAME", p, rest) == "<$NAME>";
  }

  // ---------------------------------------------------------------------------
  // Result URLs
  // ---------------------------------------------------------------------------

  const ViewPrefix: string := BaseUrl + "/view?filename="

  /** `generateImageUrl(fileName, type)`. */
  function ViewUrl(fileName: string, imageType: string): string
  {
    ViewPrefix + fileName + "&type=" + imageType
  }

  datatype ViewRef = ViewRef(fileName: string, imageType: string)

  /** Reading a view URL back: the file name up to the first `&type=`, and the type after it. */
  function ParseViewUrl(url: string): (r: Option<ViewRef>)
    ensures r.Some? ==> ViewUrl(r.value.fileName, r.value.imageType) == url
  {
    if ViewPrefix <= url then
      var rest := url[|ViewPrefix|..];
      match FindFirst(rest, "&type=")
      case Some(k) => Some(ViewRef(rest[..k], rest[k + 6..]))
      case None => None
    else None
  }

  /** A view URL gives back its file name and type, when the file name holds no `&`. */
  lemma ViewUrlRoundTrip(fileName: string, imageType: string)
    requires '&' !in fileName
    ensures ParseViewUrl(ViewUrl(fileName, imageType)) == Some(ViewRef(fileName, imageType))
  {
    var url := ViewUrl(fileName, imageType);
    assert url == ViewPrefix + (fileName + "&type=" + imageType);
    assert url[|ViewPrefix|..] == fileName + "&type=" + imageType;
    FirstOccurrenceAfter(fileName, "&type=", imageType);
    var rest := fileName + "&type=" + imageType;
    assert rest[..|fileName|] == fileName;
    assert rest[|fileName| + 6..] == imageType;
  }

  // ---------------------------------------------------------------------------
  // Polling
  // ---------------------------------------------------------------------------

  datatype ImageRef = ImageRef(filename: string, subfolder: string, imageType: string)

  /** The `outputs` of a history record: output slot name to its images. */
  type Outputs = map<string, seq<ImageRef>>

  datatype Status = Status(statusStr: string, completed: bool)

  /** The history record of the job; `outputs` may be absent. */
  datatype HistoryRecord = HistoryRecord(status: Status, outputs: Option<Outputs>)

  /** The answer to one status request: no record for the job yet, its record, or a transport failure. */
  datatype PollResponse = NotFound | Found(record: HistoryRecord) | PollFailed(detail: string)

  /** The answer to the job submission. */
  datatype Submission = Queued | SubmitFailed(detail: string)

  /** What the client throws: a transport (axios) error, an `Error` with a message, or a `TypeError` from reading a missing output. */
  datatype Thrown = AxiosError(message: string) | PlainError(message: string) | TypeError

  /**
   * How a run ends: it returns the card, or throws; `Pending` means the
   * given responses ran out while the loop would still request another.
   */
  datatype Outcome = Returned(response: GenerateResponse) | Threw(error: Thrown) | Pending

  /** An outcome and the number of status requests made. */
  datatype Run = Run(outcome: Outcome, polls: nat)

  const NoOutputsMessage: string := "生成图片失败，没有输出内容"
  const TimeoutMessage: string := "生成图片超时"
  const RequestFailedPrefix: string := "API请求失败: "

  /** `extractCard`: the first image of output slot "89" is the front, that of slot "109" the back. */
  function ExtractCard(outputs: Outputs): (r: Outcome)
    ensures r.Returned? <==> "89" in outputs && |outputs["89"]| > 0 && "109" in outputs && |outputs["109"]| > 0
    ensures !r.Returned? ==> r == Threw(TypeError)
  {
    if "89" in outputs && |outputs["89"]| > 0 && "109" in outputs && |outputs["109"]| > 0 then
      var front := outputs["89"][0];
      var back := outputs["109"][0];
      Returned(GenerateResponse(ViewUrl(front.filename, front.imageType), ViewUrl(back.filename, back.imageType)))
    else Threw(TypeError)
  }

  /** The card's URLs lead back to the first image of slot "89" and of slot "109". */
  lemma ExtractCardUsesFirstImages(outputs: Outputs)
    requires ExtractCard(outputs).Returned?
    requires '&' !in outputs["89"][0].filename && '&' !in outputs["109"][0].filename
    ensures var card := ExtractCard(outputs).response;
      && ParseViewUrl(card.frontUrl) == Some(ViewRef(outputs["89"][0].filename, outputs["89"][0].imageType))
      && ParseViewUrl(card.backUrl) == Some(ViewRef(outputs["109"][0].filename, outputs["109"][0].imageType))
  {
    ViewUrlRoundTrip(outputs["89"][0].filename, outputs["89"][0].imageType);
    ViewUrlRoundTrip(outputs["109"][0].filename, outputs["109"][0].imageType);
  }

  /** The record says the job completed successfully. */
  predicate Succeeded(rec: HistoryRecord)
  {
    rec.status.completed && rec.status.statusStr == "success"
  }

  /** A response that uses up one attempt: no record yet, or a record not completed. */
  predicate CountsAttempt(p: PollResponse)
  {
    p.NotFound? || (p.Found? && !p.record.status.completed)
  }

  /** The number of responses in `s` that use up an attempt. */
  function Attempts(s: seq<PollResponse>): nat
    decreases |s|
  {
    if s == [] then 0 else (if CountsAttempt(s[0]) then 1 else 0) + Attempts(s[1..])
  }

  function Shift(r: Run, k: nat): Run
  {
    Run(r.outcome, r.polls + k)
  }

  /** The polling loop, from `attempts` attempts used, over the responses still to come. */
  function PollFrom(polls: seq<PollResponse>, maxAttempts: int, attempts: int): (r: Run)
    ensures r.polls <= |polls|
    ensures r.outcome == Pending ==> r.polls == |polls| && attempts < maxAttempts
    ensures r.outcome.Threw? && r.outcome.error.AxiosError? ==> r.polls > 0 && polls[r.polls - 1].PollFailed?
    decreases |polls|
  {
    if attempts >= maxAttempts then Run(Threw(PlainError(TimeoutMessage)), 0)
    else if polls == [] then Run(Pending, 0)
    else
      match polls[0]
      case PollFailed(detail) => Run(Threw(AxiosError(detail)), 1)
      case NotFound => Shift(PollFrom(polls[1..], maxAttempts, attempts + 1), 1)
      case Found(rec) =>
        if Succeeded(rec) then
          match rec.outputs
          case Some(outputs) => Run(ExtractCard(outputs), 1)
          case None => Run(Threw(PlainError(NoOutputsMessage)), 1)
        else if !rec.status.completed then Shift(PollFrom(polls[1..], maxAttempts, attempts + 1), 1)
        else Shift(PollFrom(polls[1..], maxAttempts, attempts), 1)
  }

  /** The `catch` clause: a transport error is rethrown with a prefix, anything else unchanged. */
  function Caught(e: Thrown): (r: Thrown)
    ensures !r.AxiosError?
    ensures e.AxiosError? ==> r == PlainError(RequestFailedPrefix + e.message) && RequestFailedPrefix <= r.message
    ensures !e.AxiosError? ==> r == e
  {
    if e.AxiosError? then PlainError(RequestFailedPrefix + e.message) else e
  }

  /** An outcome after the `catch` clause: only a thrown error changes, and no transport error is left. */
  function CatchOutcome(o: Outcome): (r: Outcome)
    ensures r.Threw? <==> o.Threw?
    ensures r.Threw? ==> !r.error.AxiosError? && r.error == Caught(o.error)
    ensures !o.Threw? ==> r == o
  {
    if o.Threw? then Threw(Caught(o.error)) else o
  }

  /** `generateImage`: submit the job, then poll it; every thrown error passes the `catch` clause. */
  function Generation(submission: Submission, polls: seq<PollResponse>, maxAttempts: int): (r: Run)
    ensures r.polls <= |polls|
    ensures !(r.outcome.Threw? && r.outcome.error.AxiosError?)
    ensures submission.SubmitFailed? ==> r == Run(Threw(PlainError(RequestFailedPrefix + submission.detail)), 0)
  {
    match submission
    case SubmitFailed(detail) => Run(Threw(Caught(AxiosError(detail))), 0)
    case Queued =>
      var r := PollFrom(polls, maxAttempts, 0);
      Run(CatchOutcome(r.outcome), r.polls)
  }

  lemma PollFromStep(polls: seq<PollResponse>, k: nat, maxAttempts: int, attempts: int)
    requires k < |polls|
    ensures polls[k..][0] == polls[k] && polls[k..][1..] == polls[k + 1..]
  {
  }

  /** The polling loop as the client runs it, request by request. */
  method GenerateImage(submission: Submission, polls: seq<PollResponse>, maxAttempts: int)
    returns (outcome: Outcome, pollsMade: nat)
    ensures Run(outcome, pollsMade) == Generation(submission, polls, maxAttempts)
  {
    pollsMade := 0;
    if submission.SubmitFailed? {
      outcome := Threw(Caught(AxiosError(submission.detail)));
      return;
    }
    var attempts := 0;
    while attempts < maxAttempts
      invariant pollsMade <= |polls|
      invariant PollFrom(polls, maxAttempts, 0) == Shift(PollFrom(polls[pollsMade..], maxAttempts, attempts), pollsMade)
      decreases |polls| - pollsMade
    {
      if pollsMade == |polls| {
        outcome := Pending;
        return;
      }
      PollFromStep(polls, pollsMade, maxAttempts, attempts);
      var response := polls[pollsMade];
      pollsMade := pollsMade + 1;
      match response {
        case PollFailed(detail) =>
          outcome := CatchOutcome(Threw(AxiosError(detail)));
          return;
        case NotFound =>
          attempts := attempts + 1;
        case Found(rec) =>
          if Succeeded(rec) {
            match rec.outputs {
              case Some(outputs) =>
                outcome := CatchOutcome(ExtractCard(outputs));
              case None =>
                outcome := CatchOutcome(Threw(PlainError(NoOutputsMessage)));
            }
            return;
          }
          if !rec.status.completed {
            attempts := attempts + 1;
          }
      }
    }
    outcome := CatchOutcome(Threw(PlainError(TimeoutMessage)));
  }

  // ---------------------------------------------------------------------------
  // Properties of the polling loop
  // ---------------------------------------------------------------------------

  /** `n` copies of `x`. */
  function Repeat<T>(x: T, n: nat): (r: seq<T>)
    ensures |r| == n
  {
    if n == 0 then [] else [x] + Repeat(x, n - 1)
  }

  lemma {:induction false} RepeatIsConstant<T>(x: T, n: nat)
    ensures forall i :: 0 <= i < n ==> Repeat(x, n)[i] == x
  {
    if n > 0 {
      RepeatIsConstant(x, n - 1);
      forall i | 0 < i < n ensures Repeat(x, n)[i] == x {
        assert Repeat(x, n)[i] == Repeat(x, n - 1)[i - 1];
      }
    }
  }

  /** One "not found" response, with attempts left, costs one attempt and one request. */
  lemma NotFoundStep(t: seq<PollResponse>, maxAttempts: int, attempts: int)
    requires attempts < maxAttempts
    ensures PollFrom([NotFound] + t, maxAttempts, attempts) == Shift(PollFrom(t, maxAttempts, attempts + 1), 1)
  {
    assert ([NotFound] + t)[1..] == t;
  }

  /** A run of `n` "not found" responses uses up exactly `n` attempts and `n` requests. */
  lemma {:induction false} NotFoundPrefix(polls: seq<PollResponse>, n: nat, maxAttempts: int, attempts: int)
    requires n <= |polls| && attempts + n <= maxAttempts
    requires forall i :: 0 <= i < n ==> polls[i] == NotFound
    ensures PollFrom(polls, maxAttempts, attempts) == Shift(PollFrom(polls[n..], maxAttempts, attempts + n), n)
    decreases n
  {
    if n > 0 {
      var t := polls[1..];
      assert polls == [NotFound] + t;
      NotFoundStep(t, maxAttempts, attempts);
      NotFoundPrefix(t, n - 1, maxAttempts, attempts + 1);
      assert t[n - 1..] == polls[n..];
    } else {
      assert polls[0..] == polls;
    }
  }

  /** Each "not found" response uses up exactly one attempt and one request. */
  lemma NotFoundCountsOnce(n: nat, rest: seq<PollResponse>, maxAttempts: int, attempts: int)
    requires attempts + n <= maxAttempts
    ensures PollFrom(Repeat(NotFound, n) + rest, maxAttempts, attempts)
         == Shift(PollFrom(rest, maxAttempts, attempts + n), n)
  {
    var polls := Repeat(NotFound, n) + rest;
    RepeatIsConstant(NotFound, n);
    assert forall i :: 0 <= i < n ==> polls[i] == NotFound;
    NotFoundPrefix(polls, n, maxAttempts, attempts);
    assert polls[n..] == rest;
  }

  /** N "not found" responses and then a successful record with its outputs: the card, after exactly N + 1 requests. */
  lemma PollsUntilSuccess(n: nat, rec: HistoryRecord, rest: seq<PollResponse>, maxAttempts: int)
    requires n < maxAttempts
    requires Succeeded(rec) && rec.outputs.Some? && ExtractCard(rec.outputs.value).Returned?
    ensures Generation(Queued, Repeat(NotFound, n) + [Found(rec)] + rest, maxAttempts)
         == Run(ExtractCard(rec.outputs.value), n + 1)
  {
    var tail := [Found(rec)] + rest;
    assert Repeat(NotFound, n) + [Found(rec)] + rest == Repeat(NotFound, n) + tail;
    NotFoundCountsOnce(n, tail, maxAttempts, 0);
    assert tail[0] == Found(rec);
  }

  /** A response after which the loop requests again: no record yet, or a record that did not succeed. */
  predicate KeepsPolling(p: PollResponse)
  {
    p.NotFound? || (p.Found? && !Succeeded(p.record))
  }

  /**
   * Responses that each keep the loop polling, read while attempts are left:
   * one request each, and the attempts they use are those that count.
   */
  lemma {:induction false} KeepsPollingPrefix(prefix: seq<PollResponse>, rest: seq<PollResponse>, maxAttempts: int, attempts: int)
    requires forall i :: 0 <= i < |prefix| ==> KeepsPolling(prefix[i])
    requires attempts + Attempts(prefix) < maxAttempts
    ensures PollFrom(prefix + rest, maxAttempts, attempts)
         == Shift(PollFrom(rest, maxAttempts, attempts + Attempts(prefix)), |prefix|)
    decreases |prefix|
  {
    if prefix != [] {
      var p := prefix[0];
      var c := if CountsAttempt(p) then 1 else 0;
      var polls := prefix + rest;
      assert polls[0] == p && polls[1..] == prefix[1..] + rest;
      assert PollFrom(polls, maxAttempts, attempts) == Shift(PollFrom(prefix[1..] + rest, maxAttempts, attempts + c), 1);
      KeepsPollingPrefix(prefix[1..], rest, maxAttempts, attempts + c);
    } else {
      assert prefix + rest == rest;
    }
  }

  /** After answers that keep the loop polling, the client goes on as if it started with the attempts they used. */
  lemma GenerationAfterPrefix(prefix: seq<PollResponse>, tail: seq<PollResponse>, maxAttempts: int)
    requires forall i :: 0 <= i < |prefix| ==> KeepsPolling(prefix[i])
    requires Attempts(prefix) < maxAttempts
    ensures var r := PollFrom(tail, maxAttempts, Attempts(prefix));
      Generation(Queued, prefix + tail, maxAttempts) == Run(CatchOutcome(r.outcome), r.polls + |prefix|)
  {
    KeepsPollingPrefix(prefix, tail, maxAttempts, 0);
  }

  /** A successful record, read with attempts left, ends the loop at that request. */
  lemma SucceededRecordEnds(rec: HistoryRecord, rest: seq<PollResponse>, maxAttempts: int, attempts: int)
    requires Succeeded(rec) && attempts < maxAttempts
    ensures PollFrom([Found(rec)] + rest, maxAttempts, attempts)
         == Run(if rec.outputs.Some? then ExtractCard(rec.outputs.value) else Threw(PlainError(NoOutputsMessage)), 1)
  {
    assert ([Found(rec)] + rest)[0] == Found(rec);
  }

  /**
   * Answers that keep the loop polling, then a successful record, with
   * attempts left: after exactly one request more, the client returns the
   * card of its outputs (or the `TypeError` of `extractCard`), or throws the
   * no-outputs error when the record has none.
   */
  lemma SuccessAfterPolling(prefix: seq<PollResponse>, rec: HistoryRecord, rest: seq<PollResponse>, maxAttempts: int)
    requires forall i :: 0 <= i < |prefix| ==> KeepsPolling(prefix[i])
    requires Attempts(prefix) < maxAttempts && Succeeded(rec)
    ensures rec.outputs.Some? ==>
      Generation(Queued, prefix + ([Found(rec)] + rest), maxAttempts)
        == Run(CatchOutcome(ExtractCard(rec.outputs.value)), |prefix| + 1)
    ensures rec.outputs.None? ==>
      Generation(Queued, prefix + ([Found(rec)] + rest), maxAttempts)
        == Run(Threw(PlainError(NoOutputsMessage)), |prefix| + 1)
  {
    GenerationAfterPrefix(prefix, [Found(rec)] + rest, maxAttempts);
    SucceededRecordEnds(rec, rest, maxAttempts, Attempts(prefix));
  }

  /** When the first responses all use up an attempt, the loop times out after exactly the attempts left. */
  lemma {:induction false} TimeoutAfterMaxAttempts(polls: seq<PollResponse>, maxAttempts: int, attempts: int)
    requires attempts <= maxAttempts && maxAttempts - attempts <= |polls|
    requires forall i :: 0 <= i < maxAttempts - attempts ==> CountsAttempt(polls[i])
    ensures PollFrom(polls, maxAttempts, attempts) == Run(Threw(PlainError(TimeoutMessage)), maxAttempts - attempts)
    decreases maxAttempts - attempts
  {
    if attempts < maxAttempts {
      assert CountsAttempt(polls[0]);
      TimeoutAfterMaxAttempts(polls[1..], maxAttempts, attempts + 1);
    }
  }

  /** `maxAttempts` when the caller gives none. */
  const DefaultMaxAttempts: nat := 60

  /** With the default limit, sixty "not found" responses end in the timeout error after sixty requests. */
  lemma DefaultLimitTimesOut(rest: seq<PollResponse>)
    ensures Generation(Queued, Repeat(NotFound, DefaultMaxAttempts) + rest, DefaultMaxAttempts)
         == Run(Threw(PlainError(TimeoutMessage)), 60)
  {
    var polls := Repeat(NotFound, DefaultMaxAttempts) + rest;
    RepeatIsConstant(NotFound, DefaultMaxAttempts);
    assert forall i :: 0 <= i < DefaultMaxAttempts ==> polls[i] == NotFound;
    GenerationTimesOut(polls, DefaultMaxAttempts);
  }

  /** A client given `maxAttempts` responses that never complete reports the timeout after exactly `maxAttempts` requests. */
  lemma GenerationTimesOut(polls: seq<PollResponse>, maxAttempts: nat)
    requires maxAttempts <= |polls|
    requires forall i :: 0 <= i < maxAttempts ==> CountsAttempt(polls[i])
    ensures Generation(Queued, polls, maxAttempts) == Run(Threw(PlainError(TimeoutMessage)), maxAttempts)
  {
    TimeoutAfterMaxAttempts(polls, maxAttempts, 0);
  }

  /** A completed record that did not succeed uses up a request but no attempt. */
  lemma FailedRecordUsesNoAttempt(rec: HistoryRecord, rest: seq<PollResponse>, maxAttempts: int, attempts: int)
    requires rec.status.completed && !Succeeded(rec) && attempts < maxAttempts
    ensures PollFrom([Found(rec)] + rest, maxAttempts, attempts) == Shift(PollFrom(rest, maxAttempts, attempts), 1)
  {
    assert ([Found(rec)] + rest)[1..] == rest;
  }

  /** Completed-but-failed records never end the loop: however many arrive, it keeps requesting. */
  lemma {:induction false} FailedRecordsNeverEnd(polls: seq<PollResponse>, maxAttempts: int, attempts: int)
    requires attempts < maxAttempts
    requires forall i :: 0 <= i < |polls| ==> polls[i].Found? && polls[i].record.status.completed && !Succeeded(polls[i].record)
    ensures PollFrom(polls, maxAttempts, attempts) == Run(Pending, |polls|)
    decreases |polls|
  {
    if polls != [] {
      FailedRecordsNeverEnd(polls[1..], maxAttempts, attempts);
    }
  }

  /** A timeout happens only once the responses so far have used up exactly the attempts left. */
  lemma {:induction false} TimeoutMeansAttemptsUsedUp(polls: seq<PollResponse>, maxAttempts: int, attempts: int)
    requires attempts <= maxAttempts
    requires PollFrom(polls, maxAttempts, attempts).outcome == Threw(PlainError(TimeoutMessage))
    ensures attempts + Attempts(polls[..PollFrom(polls, maxAttempts, attempts).polls]) == maxAttempts
    decreases |polls|
  {
    var r := PollFrom(polls, maxAttempts, attempts);
    if attempts < maxAttempts {
      assert polls != [];
      var p := polls[0];
      assert polls[..r.polls][0] == p;
      assert polls[..r.polls][1..] == polls[1..][..r.polls - 1];
      match p
      case NotFound =>
        TimeoutMeansAttemptsUsedUp(polls[1..], maxAttempts, attempts + 1);
      case PollFailed(_) =>
      case Found(rec) =>
        if Succeeded(rec) {
          assert NoOutputsMessage != TimeoutMessage;
        } else if !rec.status.completed {
          TimeoutMeansAttemptsUsedUp(polls[1..], maxAttempts, attempts + 1);
        } else {
          TimeoutMeansAttemptsUsedUp(polls[1..], maxAttempts, attempts);
        }
    } else {
      assert polls[..0] == [];
    }
  }

  /**
   * A card is returned only for a successful record with outputs, as the last
   * response consumed, and only while attempts were left.
   */
  lemma {:induction false} ReturnedOnlyOnSuccess(polls: seq<PollResponse>, maxAttempts: int, attempts: int)
    requires PollFrom(polls, maxAttempts, attempts).outcome.Returned?
    ensures var r := PollFrom(polls, maxAttempts, attempts);
      && r.polls >= 1
      && polls[r.polls - 1].Found?
      && Succeeded(polls[r.polls - 1].record)
      && polls[r.polls - 1].record.outputs.Some?
      && r.outcome == ExtractCard(polls[r.polls - 1].record.outputs.value)
      && attempts + Attempts(polls[..r.polls - 1]) < maxAttempts
    decreases |polls|
  {
    var r := PollFrom(polls, maxAttempts, attempts);
    var p := polls[0];
    if p.PollFailed? {
    } else if p.Found? && Succeeded(p.record) {
      assert polls[..0] == [];
    } else {
      var c := if CountsAttempt(p) then 1 else 0;
      var tail := polls[1..];
      var r' := PollFrom(tail, maxAttempts, attempts + c);
      assert r == Shift(r', 1);
      ReturnedOnlyOnSuccess(tail, maxAttempts, attempts + c);
      assert polls[r.polls - 1] == tail[r'.polls - 1];
      assert polls[..r.polls - 1] == [p] + tail[..r'.polls - 1];
      assert ([p] + tail[..r'.polls - 1])[1..] == tail[..r'.polls - 1];
    }
  }

  /** A failed submission or status request reaches the caller as an `Error` whose message starts with the prefix. */
  lemma TransportFailuresAreWrapped(submission: Submission, polls: seq<PollResponse>, maxAttempts: int)
    requires Generation(submission, polls, maxAttempts).outcome.Threw?
    ensures var e := Generation(submission, polls, maxAttempts).outcome.error;
      && !e.AxiosError?
      && (submission.SubmitFailed? ==> e == PlainError(RequestFailedPrefix + submission.detail))
  {
  }
}
