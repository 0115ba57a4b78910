/**
 * The decision inside `handleFileContent`: which field of the org config file holds
 * the org identifier, and which color the ordered `sf-colorg.rules` list assigns to it.
 */
module RuleMatching {
  import opened JsValues

  /** One entry of `sf-colorg.rules`. A rule without a `color` carries `Undefined`. */
  datatype Rule = Rule(regex: string, color: Value)

  /** The JavaScript regular expression engine, left uninterpreted: `compiles(p)` says
      whether `new RegExp(p)` succeeds (a malformed pattern throws a SyntaxError) and
      `test(p, subject)` is `new RegExp(p).test(subject)`. */
  datatype RegexEngine = RegexEngine(compiles: string -> bool, test: (string, string) -> bool)

  /** What one run of the matcher ends in: the color handed to `setColor` (`Null` when
      no rule matched), or an exception thrown by `new RegExp` that ends the handler
      before `setColor` is reached. */
  datatype Outcome = Resolved(color: Value) | Thrown

  /** Field of the old-location file (`.sfdx/sfdx-config.json`). */
  const DefaultUsername := "defaultusername"
  /** Field of the new-location file (`.sf/config.json`). */
  const TargetOrg := "target-org"
  /** The path fragment that marks an old-location file. */
  const OldLocationMarker := "/.sfdx/"

  /** The identifier field chosen from the config file's path. */
  function IdentifierField(fsPath: string): (field: string)
    ensures field == DefaultUsername <==> exists i :: OccursAt(fsPath, OldLocationMarker, i)
    ensures field == DefaultUsername || field == TargetOrg
  {
    IncludesIff(fsPath, OldLocationMarker);
    if Includes(fsPath, OldLocationMarker) then DefaultUsername else TargetOrg
  }

  /** `conf.get('sf-colorg.rules') || []`: a missing list is the empty list. */
  function RulesOrEmpty(rules: Option<seq<Rule>>): seq<Rule> {
    match rules
    case None => []
    case Some(rs) => rs
  }

  /** The reference semantics of the loop: rules are tried in order, the first whose
      pattern matches gives the color, a malformed pattern met first throws. */
  function FirstMatch(engine: RegexEngine, rules: seq<Rule>, subject: string): Outcome
    decreases |rules|
  {
    if rules == [] then Resolved(Null)
    else if !engine.compiles(rules[0].regex) then Thrown
    else if engine.test(rules[0].regex, subject) then Resolved(rules[0].color)
    else FirstMatch(engine, rules[1..], subject)
  }

  /** Rule `r` was evaluated and did not match. */
  ghost predicate Misses(engine: RegexEngine, r: Rule, subject: string) {
    engine.compiles(r.regex) && !engine.test(r.regex, subject)
  }

  /** Every rule before index `i` was evaluated and did not match. */
  ghost predicate MissesBefore(engine: RegexEngine, rules: seq<Rule>, subject: string, i: int)
    requires 0 <= i <= |rules|
  {
    forall j :: 0 <= j < i ==> Misses(engine, rules[j], subject)
  }

  /** Rule `i` is the first rule that matches. */
  ghost predicate HitAt(engine: RegexEngine, rules: seq<Rule>, subject: string, i: int) {
    && 0 <= i < |rules|
    && MissesBefore(engine, rules, subject, i)
    && engine.compiles(rules[i].regex)
    && engine.test(rules[i].regex, subject)
  }

  /** Rule `i` is reached and its pattern is malformed. */
  ghost predicate ThrowsAt(engine: RegexEngine, rules: seq<Rule>, subject: string, i: int) {
    && 0 <= i < |rules|
    && MissesBefore(engine, rules, subject, i)
    && !engine.compiles(rules[i].regex)
  }

  /** The first matching rule supplies the color. */
  lemma {:induction false} FirstHitWins(engine: RegexEngine, rules: seq<Rule>, subject: string, i: int)
    requires HitAt(engine, rules, subject, i)
    ensures FirstMatch(engine, rules, subject) == Resolved(rules[i].color)
    decreases i
  {
    if i > 0 {
      assert Misses(engine, rules[0], subject);
      assert HitAt(engine, rules[1..], subject, i - 1) by {
        forall j | 0 <= j < i - 1
          ensures Misses(engine, rules[1..][j], subject)
        {
          assert Misses(engine, rules[j + 1], subject);
        }
      }
      FirstHitWins(engine, rules[1..], subject, i - 1);
    }
  }

  /** A malformed pattern reached before any match makes the handler throw. */
  lemma {:induction false} FirstMalformedThrows(engine: RegexEngine, rules: seq<Rule>, subject: string, i: int)
    requires ThrowsAt(engine, rules, subject, i)
    ensures FirstMatch(engine, rules, subject) == Thrown
    decreases i
  {
    if i > 0 {
      assert Misses(engine, rules[0], subject);
      assert ThrowsAt(engine, rules[1..], subject, i - 1) by {
        forall j | 0 <= j < i - 1
          ensures Misses(engine, rules[1..][j], subject)
        {
          assert Misses(engine, rules[j + 1], subject);
        }
      }
      FirstMalformedThrows(engine, rules[1..], subject, i - 1);
    }
  }

  /** When every rule is evaluated and none matches, including the empty list, the
      color is `Null`. */
  lemma {:induction false} NoHitGivesNull(engine: RegexEngine, rules: seq<Rule>, subject: string)
    requires MissesBefore(engine, rules, subject, |rules|)
    ensures FirstMatch(engine, rules, subject) == Resolved(Null)
    decreases |rules|
  {
    if rules != [] {
      assert Misses(engine, rules[0], subject);
      assert MissesBefore(engine, rules[1..], subject, |rules| - 1) by {
        forall j | 0 <= j < |rules| - 1
          ensures Misses(engine, rules[1..][j], subject)
        {
          assert Misses(engine, rules[j + 1], subject);
        }
      }
      NoHitGivesNull(engine, rules[1..], subject);
    }
  }

  /** Conversely, every outcome is explained by one of the three cases above: a thrown
      exception by a reached malformed pattern, a color by the first matching rule or,
      for `Null`, possibly by no rule matching at all. */
  lemma {:induction false} FirstMatchExplained(engine: RegexEngine, rules: seq<Rule>, subject: string)
    ensures FirstMatch(engine, rules, subject) == Thrown ==>
              exists i :: ThrowsAt(engine, rules, subject, i)
    ensures FirstMatch(engine, rules, subject).Resolved? ==>
              || (exists i :: HitAt(engine, rules, subject, i)
                               && FirstMatch(engine, rules, subject).color == rules[i].color)
              || (MissesBefore(engine, rules, subject, |rules|)
                  && FirstMatch(engine, rules, subject).color == Null)
    decreases |rules|
  {
    if rules == [] {
    } else if !engine.compiles(rules[0].regex) {
      assert ThrowsAt(engine, rules, subject, 0);
    } else if engine.test(rules[0].regex, subject) {
      assert HitAt(engine, rules, subject, 0);
    } else {
      var tail := rules[1..];
      FirstMatchExplained(engine, tail, subject);
      assert Misses(engine, rules[0], subject);
      forall i | 0 <= i < |tail| && MissesBefore(engine, tail, subject, i)
        ensures MissesBefore(engine, rules, subject, i + 1)
      {
        forall j | 0 <= j < i + 1
          ensures Misses(engine, rules[j], subject)
        {
          if j > 0 {
            assert rules[j] == tail[j - 1];
          }
        }
      }
      if FirstMatch(engine, tail, subject) == Thrown {
        var i :| ThrowsAt(engine, tail, subject, i);
        assert ThrowsAt(engine, rules, subject, i + 1);
      } else if exists i :: HitAt(engine, tail, subject, i)
                            && FirstMatch(engine, tail, subject).color == tail[i].color {
        var i :| HitAt(engine, tail, subject, i)
                 && FirstMatch(engine, tail, subject).color == tail[i].color;
        assert HitAt(engine, rules, subject, i + 1);
      } else {
        forall j | 0 <= j < |rules|
          ensures Misses(engine, rules[j], subject)
        {
          if j > 0 {
            assert rules[j] == tail[j - 1];
          }
        }
      }
    }
  }

  /** Once a rule matches, nothing after it is consulted: replacing every later rule
      leaves the outcome unchanged. */
  lemma {:induction false} LaterRulesIgnored(engine: RegexEngine, rules: seq<Rule>, subject: string,
                                             i: int, later: seq<Rule>)
    requires HitAt(engine, rules, subject, i)
    ensures FirstMatch(engine, rules[..i + 1] + later, subject) == FirstMatch(engine, rules, subject)
  {
    var replaced := rules[..i + 1] + later;
    assert HitAt(engine, replaced, subject, i) by {
      forall j | 0 <= j <= i
        ensures replaced[j] == rules[j]
      {
      }
    }
    FirstHitWins(engine, replaced, subject, i);
    FirstHitWins(engine, rules, subject, i);
  }

  /** The `for ... of` loop of `handleFileContent`, with its `break` on the first match. */
  method MatchRules(engine: RegexEngine, rules: seq<Rule>, subject: string) returns (outcome: Outcome)
    ensures outcome == FirstMatch(engine, rules, subject)
  {
    var targetColor := Null;
    var i := 0;
    while i < |rules|
      invariant 0 <= i <= |rules|
      invariant targetColor == Null
      invariant FirstMatch(engine, rules, subject) == FirstMatch(engine, rules[i..], subject)
    {
      var target := rules[i];
      if !engine.compiles(target.regex) {
        return Thrown;
      }
      if engine.test(target.regex, subject) {
        targetColor := target.color;
        break;
      }
      assert rules[i..][1..] == rules[i + 1..];
      i := i + 1;
    }
    return Resolved(targetColor);
  }
}
