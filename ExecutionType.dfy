/**
 * The "execution" keying mode of the component toolkit
 * (ephox.alloy.keying.ExecutionType): which keys fire a component's execute
 * handler, decided from three configuration flags.
 */
module ExecutionType {
  import opened Perhaps

  /** A component and the DOM element it is rendered as. */
  datatype Component<El> = Component(element: El)

  /** The configured `execute` handler: called with the component, the event and the element. */
  type Handler<!El, !Ev, R> = (Component<El>, Ev, El) -> R

  /** The configuration as the caller wrote it: any field may be missing. */
  datatype ExecutionSpec<H> = ExecutionSpec(
    execute: Option<H>,
    useSpace: Option<bool>,
    useEnter: Option<bool>,
    useDown: Option<bool>)

  /** The configuration after the schema has filled in its defaults. */
  datatype ExecutionConfig<H> = ExecutionConfig(execute: H, useSpace: bool, useEnter: bool, useDown: bool)

  /** A keyboard event's key code (`which`). */
  type KeyCode = int

  /** The codes of `Keys.SPACE()`, `Keys.ENTER()` and `Keys.DOWN()`, left as parameters. */
  datatype KeyCodes = KeyCodes(space: seq<KeyCode>, enter: seq<KeyCode>, down: seq<KeyCode>)

  /** What a rule does when it fires; this mode has only one action. */
  datatype Action = Execute

  /** `KeyRules.rule(KeyMatch.inSet(keys), action)`. */
  datatype Rule = Rule(keys: seq<KeyCode>, action: Action)

  /** `KeyMatch.inSet(keys)`: the rule fires on a key whose code is in its set. */
  function Fires(rule: Rule, key: KeyCode): (b: bool)
    ensures b <==> exists i :: 0 <= i < |rule.keys| && rule.keys[i] == key
  {
    key in rule.keys
  }

  /**
   * The schema: `execute` defaults to `defaultExecute`, `useSpace` to false,
   * `useEnter` to true and `useDown` to false.
   */
  function Configure<H>(spec: ExecutionSpec<H>, defaultExecute: H): (c: ExecutionConfig<H>)
    ensures c.useSpace <==> spec.useSpace == Some(true)
    ensures c.useEnter <==> spec.useEnter != Some(false)
    ensures c.useDown <==> spec.useDown == Some(true)
    ensures spec.execute.None? ==> c.execute == defaultExecute
    ensures spec.execute.Some? ==> c.execute == spec.execute.value
  {
    ExecutionConfig(
      spec.execute.GetOr(defaultExecute),
      spec.useSpace.GetOr(false),
      spec.useEnter.GetOr(true),
      spec.useDown.GetOr(false))
  }

  /**
   * The keys that trigger execution: space (unless the component sits inside
   * an editable field), then enter, then down, each only when its flag is set.
   */
  function ExecKeys<H>(c: ExecutionConfig<H>, insideEditable: bool, keys: KeyCodes): (r: seq<KeyCode>)
    ensures forall k :: k in r <==>
              (c.useSpace && !insideEditable && k in keys.space) ||
              (c.useEnter && k in keys.enter) ||
              (c.useDown && k in keys.down)
    ensures |r| == (if c.useSpace && !insideEditable then |keys.space| else 0)
                 + (if c.useEnter then |keys.enter| else 0)
                 + (if c.useDown then |keys.down| else 0)
    ensures c.useSpace && !insideEditable ==> keys.space <= r
    ensures !(c.useSpace && !insideEditable) && c.useEnter ==> keys.enter <= r
    ensures c.useSpace && !insideEditable && c.useEnter ==> r[|keys.space|..|keys.space| + |keys.enter|] == keys.enter
    ensures c.useDown ==> r[|r| - |keys.down|..] == keys.down
  {
    var spaceExec := if c.useSpace && !insideEditable then keys.space else [];
    var enterExec := if c.useEnter then keys.enter else [];
    var downExec := if c.useDown then keys.down else [];
    spaceExec + enterExec + downExec
  }

  /** `getRules`: a single rule that runs `execute` on any of the execution keys. */
  function GetRules<H>(c: ExecutionConfig<H>, insideEditable: bool, keys: KeyCodes): (rules: seq<Rule>)
    ensures |rules| == 1 && rules[0].action == Execute
    ensures forall k :: Fires(rules[0], k) <==>
              (c.useSpace && !insideEditable && k in keys.space) ||
              (c.useEnter && k in keys.enter) ||
              (c.useDown && k in keys.down)
  {
    [Rule(ExecKeys(c, insideEditable, keys), Execute)]
  }

  /** `execute`: hands the component, the event and the component's element to the handler. */
  function RunExecute<El, Ev, R>(component: Component<El>, event: Ev, c: ExecutionConfig<Handler<El, Ev, R>>): (r: R)
    ensures r == c.execute(component, event, component.element)
  {
    c.execute(component, event, component.element)
  }

  /** The three key groups have no code in common. */
  ghost predicate Distinct(keys: KeyCodes)
  {
    && (forall k :: k in keys.space ==> k !in keys.enter && k !in keys.down)
    && (forall k :: k in keys.enter ==> k !in keys.down)
  }

  /**
   * With distinct key groups, each group is included exactly when its
   * condition holds: space when `useSpace` and not inside an editable field,
   * enter when `useEnter`, down when `useDown`.
   */
  lemma GroupIncludedIff<H>(c: ExecutionConfig<H>, insideEditable: bool, keys: KeyCodes)
    requires Distinct(keys)
    requires keys.space != [] && keys.enter != [] && keys.down != []
    ensures keys.space[0] in ExecKeys(c, insideEditable, keys) <==> c.useSpace && !insideEditable
    ensures keys.enter[0] in ExecKeys(c, insideEditable, keys) <==> c.useEnter
    ensures keys.down[0] in ExecKeys(c, insideEditable, keys) <==> c.useDown
  {
    var r := ExecKeys(c, insideEditable, keys);
    var s, e, d := keys.space[0], keys.enter[0], keys.down[0];
    assert s in keys.space && e in keys.enter && d in keys.down;
    assert s !in keys.enter && s !in keys.down && e !in keys.down;
    assert e !in keys.space && d !in keys.space && d !in keys.enter;
  }

  /** A configuration that sets nothing executes on enter only. */
  lemma DefaultsExecuteOnEnter<H>(defaultExecute: H, insideEditable: bool, keys: KeyCodes)
    ensures var c := Configure(ExecutionSpec(None, None, None, None), defaultExecute);
      ExecKeys(c, insideEditable, keys) == keys.enter && c.execute == defaultExecute
  {
  }
}
