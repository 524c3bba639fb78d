/**
 * The scene navigation of `Menu_main`: a stack of intents whose top is the scene on screen. A
 * scene's draw call returns an intent; the switcher pushes it, pops back to the previous entry,
 * or ignores it. Also the PTMU battery-level table of `Menu_get_system_info`.
 */
module SceneSwitcher {
  import opened Wrappers

  datatype SceneType =
    | VideoPlayer | Search | ChannelScene | Settings | About | History | Subscription
    | NoChange | Back | Exit

  /** The scenes that can be on screen, as opposed to the three control values. */
  predicate IsScene(t: SceneType) {
    t != NoChange && t != Back && t != Exit
  }

  /** `Intent`: the scene to go to and its argument (a URL or a search query). */
  datatype Intent = Intent(nextScene: SceneType, arg: string)

  /** The scene hooks `Menu_main` calls: `*_suspend` on the scene left, `*_resume` on the one entered. */
  datatype SceneCall = Suspend(scene: SceneType) | Resume(scene: SceneType, arg: string)

  function Top(stack: seq<Intent>): Intent
    requires |stack| > 0
  {
    stack[|stack| - 1]
  }

  /** No entry names a control value and no two neighbouring entries are equal. */
  predicate ValidStack(stack: seq<Intent>) {
    && |stack| > 0
    && (forall k :: 0 <= k < |stack| ==> IsScene(stack[k].nextScene))
    && (forall k :: 0 < k < |stack| ==> stack[k - 1] != stack[k])
  }

  /** The intent reaches the stack update: it is neither EXIT nor NO_CHANGE and not the top itself. */
  predicate Handled(stack: seq<Intent>, intent: Intent)
    requires |stack| > 0
  {
    intent.nextScene != Exit && intent.nextScene != NoChange && intent != Top(stack)
  }

  /** The intent is the entry just below the top, and so is turned into BACK. */
  predicate ReturnsToPrevious(stack: seq<Intent>, intent: Intent) {
    |stack| >= 2 && intent == stack[|stack| - 2]
  }

  /** The stack after one `Menu_main` step. */
  function NextStack(stack: seq<Intent>, intent: Intent): (next: seq<Intent>)
    requires |stack| > 0
    ensures |next| > 0
  {
    if !Handled(stack, intent) then stack
    else if ReturnsToPrevious(stack, intent) || intent.nextScene == Back then
      (if |stack| >= 2 then stack[..|stack| - 1] else stack)
    else stack + [intent]
  }

  /** The value `Menu_main` returns: false only for EXIT. */
  function KeepRunning(intent: Intent): (running: bool)
    ensures running <==> intent.nextScene != Exit
  {
    intent.nextScene != Exit
  }

  /** Every step keeps the stack non-empty, free of control values and free of repeated neighbours. */
  lemma {:induction false} NextStackValid(stack: seq<Intent>, intent: Intent)
    requires ValidStack(stack)
    ensures ValidStack(NextStack(stack, intent))
  {
    var next := NextStack(stack, intent);
    if Handled(stack, intent) && !(ReturnsToPrevious(stack, intent) || intent.nextScene == Back) {
      assert next == stack + [intent];
      assert next[|stack| - 1] == Top(stack) != intent;
      forall k | 0 < k < |next|
        ensures next[k - 1] != next[k]
      {
        if k < |stack| {
          assert next[k - 1] == stack[k - 1] && next[k] == stack[k];
        }
      }
    }
  }

  /** EXIT and NO_CHANGE, and an intent equal to the top, leave the stack as it is. */
  lemma IgnoredIntents(stack: seq<Intent>, intent: Intent)
    requires |stack| > 0
    requires intent.nextScene == Exit || intent.nextScene == NoChange || intent == Top(stack)
    ensures NextStack(stack, intent) == stack
  {
  }

  /** Asking for the entry below the top pops the top instead of pushing a copy. */
  lemma ReturnPops(stack: seq<Intent>, intent: Intent)
    requires ValidStack(stack) && ReturnsToPrevious(stack, intent)
    ensures NextStack(stack, intent) == stack[..|stack| - 1]
  {
    assert stack[|stack| - 2] != Top(stack);
  }

  /** BACK pops only when there is something below the top; the last entry is never popped. */
  lemma BackPops(stack: seq<Intent>, arg: string)
    requires ValidStack(stack)
    ensures NextStack(stack, Intent(Back, arg)) == if |stack| >= 2 then stack[..|stack| - 1] else stack
  {
    assert IsScene(Top(stack).nextScene);
  }

  /** Any other scene intent is pushed and becomes the top. */
  lemma OtherIntentsPush(stack: seq<Intent>, intent: Intent)
    requires |stack| > 0 && IsScene(intent.nextScene)
    requires intent != Top(stack) && !ReturnsToPrevious(stack, intent)
    ensures NextStack(stack, intent) == stack + [intent]
    ensures Top(NextStack(stack, intent)) == intent
  {
  }

  /** Going to a new scene and then asking for the previous top comes back to the original stack. */
  lemma {:induction false} ForwardThenReturn(stack: seq<Intent>, intent: Intent)
    requires ValidStack(stack) && IsScene(intent.nextScene)
    requires intent != Top(stack) && !ReturnsToPrevious(stack, intent)
    ensures NextStack(NextStack(stack, intent), Top(stack)) == stack
  {
    var pushed := NextStack(stack, intent);
    assert pushed == stack + [intent];
    assert pushed[|pushed| - 2] == Top(stack);
    assert pushed[..|pushed| - 1] == stack;
  }

  /** The stack after a whole run of intents (EXIT ends the run, so it is simply ignored here). */
  function RunStack(stack: seq<Intent>, intents: seq<Intent>): (final: seq<Intent>)
    requires |stack| > 0
    decreases |intents|
    ensures |final| > 0
    ensures (forall i :: 0 <= i < |intents| ==> intents[i].nextScene == NoChange) ==> final == stack
  {
    if |intents| == 0 then stack
    else
      RunStack(NextStack(stack, intents[0]), intents[1..])
  }

  /** However the user navigates, the stack stays valid and so the app always has a scene to show. */
  lemma {:induction false} RunStackValid(stack: seq<Intent>, intents: seq<Intent>)
    requires ValidStack(stack)
    decreases |intents|
    ensures ValidStack(RunStack(stack, intents))
  {
    if |intents| > 0 {
      NextStackValid(stack, intents[0]);
      RunStackValid(NextStack(stack, intents[0]), intents[1..]);
    }
  }

  /** The hooks called for one step: suspend whenever the intent is not NO_CHANGE, resume after a stack update. */
  function StepCalls(current: SceneType, stack: seq<Intent>, intent: Intent): (calls: seq<SceneCall>)
    requires |stack| > 0
    ensures |calls| <= 2
    ensures intent.nextScene != NoChange <==> calls != [] && calls[0] == Suspend(current)
    ensures Handled(stack, intent) <==> calls != [] && calls[|calls| - 1].Resume?
    ensures Handled(stack, intent) ==> calls[|calls| - 1].scene == Top(NextStack(stack, intent)).nextScene
  {
    (if intent.nextScene != NoChange then [Suspend(current)] else [])
    + (if Handled(stack, intent) then
         var top := Top(NextStack(stack, intent));
         [Resume(top.nextScene, top.arg)]
       else [])
  }

  /**
   * EXIT, and an intent equal to the top of the stack, still suspend the current scene, but
   * nothing is resumed: the stack is left as it is.
   */
  lemma SuspendWithoutResume(current: SceneType, stack: seq<Intent>, intent: Intent)
    requires |stack| > 0
    requires intent.nextScene == Exit || (intent == Top(stack) && intent.nextScene != NoChange)
    ensures StepCalls(current, stack, intent) == [Suspend(current)]
    ensures NextStack(stack, intent) == stack
  {
    IgnoredIntents(stack, intent);
  }

  /**
   * `scene_stack` and `current_scene`; `calls` records the suspend and resume hooks that
   * `Menu_main` runs on the scenes.
   */
  class SceneNavigator {
    var stack: seq<Intent>
    var current: SceneType
    var calls: seq<SceneCall>

    ghost predicate Valid()
      reads this
    {
      ValidStack(stack) && current == Top(stack).nextScene
    }

    /** The stack starts as a single SEARCH intent and `Menu_init` sets the search scene. */
    constructor()
      ensures Valid() && stack == [Intent(Search, "")] && current == Search && calls == []
    {
      stack := [Intent(Search, "")];
      current := Search;
      calls := [];
    }

    /** The stack update of `Menu_main` for the intent returned by the current scene's draw call. */
    method Step(intent: Intent) returns (running: bool)
      requires Valid()
      modifies this
      ensures Valid()
      ensures running == KeepRunning(intent)
      ensures stack == NextStack(old(stack), intent)
      ensures calls == old(calls) + StepCalls(old(current), old(stack), intent)
    {
      NextStackValid(stack, intent);
      if intent.nextScene != NoChange {
        calls := calls + [Suspend(current)];
      }
      if intent.nextScene == Exit {
        return false;
      } else if intent.nextScene != NoChange && intent != stack[|stack| - 1] {
        var target := intent;
        if |stack| >= 2 && intent == stack[|stack| - 2] {
          target := Intent(Back, intent.arg);
        }
        if target.nextScene == Back {
          if |stack| >= 2 {
            stack := stack[..|stack| - 1];
          }
        } else {
          stack := stack + [target];
        }
        current := stack[|stack| - 1].nextScene;
        calls := calls + [Resume(current, stack[|stack| - 1].arg)];
      }
      return true;
    }
  }

  // ---------------------------------------------------------------- battery level

  /** The PTMU charge levels 0 to 5 as percentages. */
  function PtmuPercent(level: int): (p: Option<int>)
    ensures p.Some? <==> 0 <= level <= 5
  {
    if level == 0 then Some(0)
    else if level == 1 then Some(5)
    else if level == 2 then Some(10)
    else if level == 3 then Some(30)
    else if level == 4 then Some(60)
    else if level == 5 then Some(100)
    else None
  }

  /**
   * The new `var_battery_level_raw`: the MCU's percentage when it can be read, otherwise the
   * PTMU level through the table; an unknown PTMU level leaves the old value in place.
   */
  function BatteryLevelRaw(mcuLevel: Option<int>, ptmuLevel: int, previous: int): (raw: int)
    ensures mcuLevel.None? && 0 <= ptmuLevel <= 5 ==> 0 <= raw <= 100
    ensures mcuLevel.None? && !(0 <= ptmuLevel <= 5) ==> raw == previous
  {
    if mcuLevel.Some? then mcuLevel.value
    else match PtmuPercent(ptmuLevel)
      case Some(p) => p
      case None => previous
  }

  /** The table rises strictly, starts at 0 % and ends at 100 %. */
  lemma PtmuPercentIncreasing(a: int, b: int)
    requires 0 <= a < b <= 5
    ensures PtmuPercent(a).value < PtmuPercent(b).value
    ensures PtmuPercent(0) == Some(0) && PtmuPercent(5) == Some(100)
  {
  }

  lemma BatteryLevelRawCases(mcuLevel: Option<int>, ptmuLevel: int, previous: int)
    ensures mcuLevel.Some? ==> BatteryLevelRaw(mcuLevel, ptmuLevel, previous) == mcuLevel.value
    ensures mcuLevel.None? && !(0 <= ptmuLevel <= 5) ==> BatteryLevelRaw(mcuLevel, ptmuLevel, previous) == previous
    ensures mcuLevel.None? && 0 <= ptmuLevel <= 5 ==> 0 <= BatteryLevelRaw(mcuLevel, ptmuLevel, previous) <= 100
  {
  }
}
