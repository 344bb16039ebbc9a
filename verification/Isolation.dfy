/**
 Senders sharing one database, and instances sharing it under different key prefixes, do not affect
 one another.
 */
module Isolation {
  import opened Wrappers
  import opened Limiter
  import opened Runs

  /** The run as `sender` alone would have it: its own checks and the passage of time. */
  function Alone(steps: seq<Step>, sender: Sender): seq<Step> {
    if steps == [] then []
    else
      var step := Final(steps);
      Alone(Init(steps), sender) + if step.Tick? || (step.Check? && step.sender == sender) then [step] else []
  }

  /** The replies a run gives to the checks of `sender`, in order. */
  ghost function RepliesTo(rules: Rules, start: World, steps: seq<Step>, sender: Sender): seq<Reply> {
    if steps == [] then []
    else
      var step := Final(steps);
      RepliesTo(rules, start, Init(steps), sender)
      + if step.Check? && step.sender == sender
        then [ReplyAfter(rules, start, Init(steps), sender, step.count, step.fault)] else []
  }

  /** Two deployments that treat `sender` alike and start at the same second. */
  ghost predicate AlikeFor(sender: Sender, rules: Rules, start: World, rules': Rules, start': World) {
    rules(sender) == rules'(sender) && start.now == start'.now && Untouched(start.db) && Untouched(start'.db)
  }

  lemma {:induction false} LedgerIsOwn(rules: Rules, start: World, rules': Rules, start': World, steps: seq<Step>,
                                       sender: Sender)
    requires AlikeFor(sender, rules, start, rules', start')
    ensures TimeAfter(rules, start, steps) == TimeAfter(rules', start', Alone(steps, sender))
    ensures LedgerOf(rules, start, steps, sender) == LedgerOf(rules', start', Alone(steps, sender), sender)
  {
    if steps != [] {
      LedgerIsOwn(rules, start, rules', start', Init(steps), sender);
      LedgerMoves(rules, start, steps, sender);
      var alone := Alone(steps, sender);
      if alone != Alone(Init(steps), sender) {
        assert Init(alone) == Alone(Init(steps), sender);
        LedgerMoves(rules', start', alone, sender);
      }
    }
  }

  /** A check is answered from the sender's own past alone. */
  lemma RepliesAreOwn(rules: Rules, start: World, rules': Rules, start': World, steps: seq<Step>, sender: Sender,
                      count: nat, fault: Fault)
    requires AlikeFor(sender, rules, start, rules', start')
    ensures ReplyAfter(rules, start, steps, sender, count, fault)
         == ReplyAfter(rules', start', Alone(steps, sender), sender, count, fault)
  {
    LedgerIsOwn(rules, start, rules', start', steps, sender);
    RepliesFollowLedger(rules, start, steps, sender, count, fault);
    RepliesFollowLedger(rules', start', Alone(steps, sender), sender, count, fault);
  }

  lemma RepliesGrow(rules: Rules, start: World, steps: seq<Step>, step: Step, sender: Sender)
    ensures RepliesTo(rules, start, steps + [step], sender)
         == RepliesTo(rules, start, steps, sender)
          + if step.Check? && step.sender == sender
            then [ReplyAfter(rules, start, steps, sender, step.count, step.fault)] else []
  {
    assert Init(steps + [step]) == steps;
  }

  /**
   Non-interference. Whatever other senders, other instances and key expiry do in between, a sender is
   answered as if it were alone on a database of its own.
   */
  lemma {:induction false} SendersDoNotInterfere(rules: Rules, start: World, rules': Rules, start': World,
                                                 steps: seq<Step>, sender: Sender)
    requires AlikeFor(sender, rules, start, rules', start')
    ensures RepliesTo(rules, start, steps, sender) == RepliesTo(rules', start', Alone(steps, sender), sender)
  {
    if steps != [] {
      var init, step, alone := Init(steps), Final(steps), Alone(Init(steps), sender);
      assert steps == init + [step];
      assert RepliesTo(rules, start, init, sender) == RepliesTo(rules', start', alone, sender) by {
        SendersDoNotInterfere(rules, start, rules', start', init, sender);
      }
      if step.Check? && step.sender == sender {
        assert Alone(steps, sender) == alone + [step];
        RepliesGrow(rules, start, init, step, sender);
        RepliesGrow(rules', start', alone, step, sender);
        RepliesAreOwn(rules, start, rules', start', init, sender, step.count, step.fault);
      } else {
        RepliesGrow(rules, start, init, step, sender);
        if step.Tick? {
          assert Alone(steps, sender) == alone + [step];
          RepliesGrow(rules', start', alone, step, sender);
        } else {
          assert Alone(steps, sender) == alone + [] == alone;
        }
      }
    }
  }
}
