/** Edit scripts over texts: what an edit distance is, said without any table or recurrence. */
module EditScripts {

  /** A decoded character. The program keeps it in 32 bits; only equality matters here. */
  type Character = c: nat | c < 0x1_0000_0000 witness 0

  type Text = seq<Character>

  datatype Costs = Costs(delete: nat, insert: nat, replace: nat, swap: nat)

  /** One edit of a whole text. `Swap(at)` exchanges the neighbours `at` and `at + 1`. */
  datatype Edit =
    | Insert(at: nat, what: Character)
    | Delete(at: nat)
    | Replace(at: nat, what: Character)
    | Swap(at: nat)
  {
    predicate AppliesTo(s: Text) {
      match this
      case Insert(at, _) => at <= |s|
      case Delete(at) => at < |s|
      case Replace(at, _) => at < |s|
      case Swap(at) => at + 1 < |s|
    }

    function Apply(s: Text): Text
      requires AppliesTo(s)
    {
      match this
      case Insert(at, what) => s[..at] + [what] + s[at..]
      case Delete(at) => s[..at] + s[at + 1..]
      case Replace(at, what) => s[at := what]
      case Swap(at) => s[at := s[at + 1]][at + 1 := s[at]]
    }

    function Cost(c: Costs): nat {
      match this
      case Insert(_, _) => c.insert
      case Delete(_) => c.delete
      case Replace(_, _) => c.replace
      case Swap(_) => c.swap
    }
  }

  type Script = seq<Edit>

  /** `script`, applied edit by edit, turns `s` into `t`. */
  predicate Turns(script: Script, s: Text, t: Text) {
    if script == [] then s == t
    else script[0].AppliesTo(s) && Turns(script[1..], script[0].Apply(s), t)
  }

  function ScriptCost(script: Script, c: Costs): nat {
    if script == [] then 0 else script[0].Cost(c) + ScriptCost(script[1..], c)
  }

  /** `d` is the edit distance from `s` to `t`: some script costs `d` and none costs less. */
  ghost predicate IsEditDistance(d: int, s: Text, t: Text, c: Costs) {
    && (exists script :: Turns(script, s, t) && ScriptCost(script, c) == d)
    && (forall script :: Turns(script, s, t) ==> d <= ScriptCost(script, c))
  }

  lemma {:induction false} TurnsThenTurns(first: Script, second: Script, s: Text, u: Text, t: Text, c: Costs)
    requires Turns(first, s, u) && Turns(second, u, t)
    ensures Turns(first + second, s, t)
    ensures ScriptCost(first + second, c) == ScriptCost(first, c) + ScriptCost(second, c)
  {
    hide Edit.Apply;
    hide Edit.AppliesTo;
    hide Edit.Cost;
    if first == [] {
      assert first + second == second;
    } else {
      var e, rest := first[0], first[1..];
      TurnsThenTurns(rest, second, e.Apply(s), u, t, c);
      assert (first + second)[0] == e && (first + second)[1..] == rest + second;
    }
  }

  /** A script that works on a prefix works on the whole text and leaves the rest alone. */
  lemma {:induction false} TurnsUnderSuffix(script: Script, s: Text, t: Text, suffix: Text)
    requires Turns(script, s, t)
    ensures Turns(script, s + suffix, t + suffix)
  {
    if script != [] {
      var e := script[0];
      assert e.AppliesTo(s + suffix);
      assert e.Apply(s + suffix) == e.Apply(s) + suffix;
      TurnsUnderSuffix(script[1..], e.Apply(s), t, suffix);
    }
  }

  lemma OneEdit(e: Edit, s: Text, c: Costs)
    requires e.AppliesTo(s)
    ensures Turns([e], s, e.Apply(s)) && ScriptCost([e], c) == e.Cost(c)
  {
    assert [e][1..] == [];
    assert Turns([], e.Apply(s), e.Apply(s));
  }
}
