/** The traversal language of `traverse` (lib/recon.js:176-206): expressions
    cut at runs of `|` into steps `name argument`, names looked up
    case-insensitively in the registry of traversal functions, and the steps
    applied one after the other starting from every element of the graph. */
module Traversal {
  import opened Base
  import opened Text

  /** One step of a traversal: a lower-cased function name and its argument. */
  datatype Step = Step(name: string, input: string)

  /** The state a traversal leaves: the selection, and the error thrown for an
      unknown step name, if any. */
  datatype Traversed = Traversed(selection: seq<string>, error: Option<string>)

  /** A trimmed string keeps no space at either end, so a trimmed non-empty
      string starts with a visible character. */
  lemma TrimVisible(s: string, i: nat)
    requires i < |s| && !IsSpace(s[i])
    ensures Trim(s) != ""
  {
    var t := TrimStart(s);
    assert i >= |s| - |t|;
    assert t[i - (|s| - |t|)] == s[i];
    var r := TrimEnd(t);
    assert i - (|s| - |t|) < |r|;
  }

  /** The argument of a step: the words after the name, joined and trimmed,
      or `*` when there are none. */
  function Argument(words: seq<string>): (a: string)
    ensures a != ""
  {
    var arg := Trim(Join(words, ' '));
    if arg == "" then "*" else arg
  }

  /** One part of an expression (lib/recon.js:181-188). */
  function ParsePart(part: string): (st: Step)
    ensures st.input != ""
    ensures IsLower(st.name)
    ensures part != "" && !IsSpace(part[0]) ==> st.name != ""
  {
    var words := Split(part, ' ');
    var name := Trim(Lower(words[0]));
    NameIsLower(words[0]);
    PartNameVisible(part);
    Step(name, Argument(words[1..]))
  }

  lemma LowerCharNotUpper(c: char)
    ensures !('A' <= LowerChar(c) <= 'Z')
  {
  }

  lemma LowerIsLower(w: string)
    ensures IsLower(Lower(w))
  {
    var l := Lower(w);
    forall k | 0 <= k < |l| ensures !('A' <= l[k] <= 'Z') {
      LowerCharNotUpper(w[k]);
    }
  }

  lemma SliceKeepsLower(l: string, a: nat, b: nat)
    requires IsLower(l) && a <= b <= |l|
    ensures IsLower(l[a..b])
  {
    var w := l[a..b];
    forall i | 0 <= i < |w| ensures !('A' <= w[i] <= 'Z') {
      assert w[i] == l[a + i];
    }
  }

  lemma TrimKeepsLower(l: string)
    requires IsLower(l)
    ensures IsLower(Trim(l))
  {
    var t := TrimStart(l);
    SliceKeepsLower(l, |l| - |t|, |l|);
    assert t == l[|l| - |t|..|l|];
    var r := TrimEnd(t);
    SliceKeepsLower(t, 0, |r|);
    assert r == t[0..|r|];
  }

  /** A lower-cased and trimmed word holds no upper-case letter. */
  lemma NameIsLower(w: string)
    ensures IsLower(Trim(Lower(w)))
  {
    LowerIsLower(w);
    TrimKeepsLower(Lower(w));
  }

  /** A part that starts with a visible character has a non-empty name. */
  lemma PartNameVisible(part: string)
    ensures part != "" && !IsSpace(part[0]) ==> Trim(Lower(Split(part, ' ')[0])) != ""
  {
    if part != "" && !IsSpace(part[0]) {
      var w := FirstWord(part, ' ');
      assert w != "" && w[0] == part[0] by {
        if ' ' in part {
          assert IndexOf(part, ' ') != 0;
        }
      }
      TrimVisible(Lower(w), 0);
    }
  }

  /** A trimmed string that is not empty starts with a visible character. */
  lemma TrimmedStartsVisible(s: string)
    ensures Trim(s) != "" ==> !IsSpace(Trim(s)[0])
  {
    var t := Trim(s);
    if t != "" {
      assert t[0] == TrimStart(s)[0];
    }
  }

  /** The name of a part is its first word, lower-cased and trimmed; the
      argument is the rest of the part after the first space, trimmed, or `*`. */
  lemma ParsePartSpec(part: string)
    ensures ' ' !in part ==> ParsePart(part) == Step(Trim(Lower(part)), "*")
    ensures ' ' in part ==>
      var k := IndexOf(part, ' ');
      ParsePart(part) == Step(Trim(Lower(part[..k])),
                              if Trim(part[k + 1..]) == "" then "*" else Trim(part[k + 1..]))
  {
    if ' ' in part {
      var k := IndexOf(part, ' ');
      var words := Split(part, ' ');
      assert words == [part[..k]] + Split(part[k + 1..], ' ');
      assert words[1..] == Split(part[k + 1..], ' ');
      JoinSplit(part[k + 1..], ' ');
    } else {
      assert Split(part, ' ') == [part];
      assert Split(part, ' ')[1..] == [];
    }
  }

  /** The step of one part of an expression, if it is not blank
      (lib/recon.js:179-180). */
  function Segment(part: string): (r: seq<Step>)
    ensures |r| <= 1
    ensures r == [] <==> Trim(part) == ""
    ensures Trim(part) != "" ==> r == [ParsePart(Trim(part))]
  {
    var t := Trim(part);
    if t == "" then [] else [ParsePart(t)]
  }

  /** Well-formed steps: a non-empty lower-case name and a non-empty argument. */
  predicate WellFormed(steps: seq<Step>)
  {
    forall i :: 0 <= i < |steps| ==>
      steps[i].name != "" && IsLower(steps[i].name) && steps[i].input != ""
  }

  lemma WellFormedAppend(a: seq<Step>, b: seq<Step>)
    requires WellFormed(a) && WellFormed(b)
    ensures WellFormed(a + b)
  {
    forall i | 0 <= i < |a + b|
      ensures (a + b)[i].name != "" && IsLower((a + b)[i].name) && (a + b)[i].input != ""
    {
      if i < |a| {
        assert (a + b)[i] == a[i];
      } else {
        assert (a + b)[i] == b[i - |a|];
      }
    }
  }

  lemma SegmentWellFormed(part: string)
    ensures WellFormed(Segment(part))
  {
    TrimmedStartsVisible(part);
  }

  function ParseParts(parts: seq<string>): (steps: seq<Step>)
    ensures WellFormed(steps)
    ensures |steps| <= |parts|
  {
    if |parts| == 0 then []
    else
      var head := Segment(parts[0]);
      var tail := ParseParts(parts[1..]);
      SegmentWellFormed(parts[0]);
      WellFormedAppend(head, tail);
      head + tail
  }

  /** The steps of one expression: split at runs of `|`, trimmed, blanks
      dropped (lib/recon.js:177-189). */
  function ParseExpression(e: string): (steps: seq<Step>)
    ensures WellFormed(steps)
  {
    ParseParts(SplitRuns(e, '|'))
  }

  /** The steps of several expressions, concatenated in order. */
  function ParseAll(exprs: seq<string>): (steps: seq<Step>)
    ensures WellFormed(steps)
  {
    if |exprs| == 0 then []
    else
      WellFormedAppend(ParseExpression(exprs[0]), ParseAll(exprs[1..]));
      ParseExpression(exprs[0]) + ParseAll(exprs[1..])
  }

  /** The run of `c` at the start of `s` ends at `m`. */
  lemma RunEndAt(s: string, i: nat, m: nat, c: char)
    requires i <= m <= |s|
    requires forall k :: i <= k < m ==> s[k] == c
    requires m == |s| || s[m] != c
    ensures RunEnd(s, i, c) == m
  {
    var j := RunEnd(s, i, c);
  }

  /** Leading separators only add blank parts, which are dropped. */
  lemma LeadingPipes(b: string, m: nat)
    requires m <= |b|
    requires forall k :: 0 <= k < m ==> b[k] == '|'
    requires m == |b| || b[m] != '|'
    ensures ParseParts(SplitRuns(b, '|')) == ParseParts(SplitRuns(b[m..], '|'))
  {
    if m > 0 {
      assert IndexOf(b, '|') == 0;
      RunEndAt(b, 0, m, '|');
      assert SplitRuns(b, '|') == [b[..0]] + SplitRuns(b[m..], '|');
      assert b[..0] == "";
      assert Segment("") == [];
    } else {
      assert b[0..] == b;
    }
  }

  /** An expression `a|b` whose first part holds no separator has the step of
      `a` (if `a` is not blank) followed by the steps of `b`. */
  lemma ParsePipe(a: string, b: string)
    requires '|' !in a
    ensures ParseExpression(a + "|" + b) == Segment(a) + ParseExpression(b)
  {
    var s := a + "|" + b;
    IndexOfAfter(a, '|', b);
    var j := RunEnd(s, |a|, '|');
    assert s[..|a|] == a;
    var m := j - |a| - 1;
    assert s[j..] == b[m..];
    forall k | 0 <= k < m ensures b[k] == '|' {
      assert b[k] == s[|a| + 1 + k];
    }
    if m < |b| {
      assert b[m] == s[j];
    }
    LeadingPipes(b, m);
    assert SplitRuns(s, '|') == [a] + SplitRuns(s[j..], '|');
    assert ([a] + SplitRuns(s[j..], '|'))[1..] == SplitRuns(s[j..], '|');
  }

  /** The first registry key whose lower-case form is `name`, as the loop over
      the registry's keys finds it (lib/recon.js:194-200). */
  function Lookup(keys: seq<string>, name: string): (r: Option<string>)
    ensures r.Some? ==>
      exists i :: 0 <= i < |keys| && keys[i] == r.value && Lower(keys[i]) == name
        && forall j :: 0 <= j < i ==> Lower(keys[j]) != name
    ensures r.None? <==> forall i :: 0 <= i < |keys| ==> Lower(keys[i]) != name
  {
    if |keys| == 0 then None
    else if Lower(keys[0]) == name then Some(keys[0])
    else
      var r := Lookup(keys[1..], name);
      if r.Some? then
        assert forall i :: 1 <= i < |keys| ==> keys[i] == keys[1..][i - 1];
        r
      else
        assert forall i :: 1 <= i < |keys| ==> keys[i] == keys[1..][i - 1];
        r
  }

  /** The message thrown for an unknown step name. */
  function Unrecognized(name: string): string
  {
    "Unrecognized traverse function " + name
  }

  /** Running steps from a selection: each registered step replaces the
      selection by what its function returns; the first unknown name stops
      the run with an error and keeps the selection reached so far.
      `apply(st, key, selection, input)` stands for calling the traversal
      function `key` of the graph library. */
  function RunSteps<S>(st: S, sel: seq<string>, steps: seq<Step>, keys: seq<string>,
                       apply: (S, string, seq<string>, string) -> seq<string>): Traversed
    decreases |steps|
  {
    if |steps| == 0 then Traversed(sel, None)
    else
      match Lookup(keys, steps[0].name)
      case None => Traversed(sel, Some(Unrecognized(steps[0].name)))
      case Some(k) => RunSteps(st, apply(st, k, sel, steps[0].input), steps[1..], keys, apply)
  }

  /** A traversal fails exactly when one of its steps names no registered
      function, and the error names the first such step. */
  lemma {:induction false} RunStepsFails<S>(st: S, sel: seq<string>, steps: seq<Step>, keys: seq<string>,
                                            apply: (S, string, seq<string>, string) -> seq<string>)
    decreases |steps|
    ensures RunSteps(st, sel, steps, keys, apply).error.Some? <==>
      exists i :: 0 <= i < |steps| && Lookup(keys, steps[i].name).None?
    ensures RunSteps(st, sel, steps, keys, apply).error.Some? ==>
      exists i :: 0 <= i < |steps| && Lookup(keys, steps[i].name).None?
        && RunSteps(st, sel, steps, keys, apply).error.value == Unrecognized(steps[i].name)
        && forall j :: 0 <= j < i ==> Lookup(keys, steps[j].name).Some?
  {
    if |steps| > 0 {
      match Lookup(keys, steps[0].name)
      case None =>
        assert Lookup(keys, steps[0].name).None?;
      case Some(k) =>
        var sel' := apply(st, k, sel, steps[0].input);
        var t := steps[1..];
        RunStepsFails(st, sel', t, keys, apply);
        var r := RunSteps(st, sel', t, keys, apply);
        assert RunSteps(st, sel, steps, keys, apply) == r;
        if r.error.Some? {
          var i :| 0 <= i < |t| && Lookup(keys, t[i].name).None?
            && r.error.value == Unrecognized(t[i].name)
            && forall j :: 0 <= j < i ==> Lookup(keys, t[j].name).Some?;
          assert steps[i + 1] == t[i];
          forall j | 0 <= j < i + 1 ensures Lookup(keys, steps[j].name).Some? {
            if j > 0 {
              assert steps[j] == t[j - 1];
            }
          }
          assert Lookup(keys, steps[i + 1].name).None?;
        } else {
          forall i | 0 <= i < |steps| ensures Lookup(keys, steps[i].name).Some? {
            if i > 0 {
              assert steps[i] == t[i - 1];
            }
          }
        }
    }
  }
}
