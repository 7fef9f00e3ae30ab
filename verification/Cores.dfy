/** The run state of a core and its run token, which tells the caches whether the core has run since they looked. */
module Cores {

  /** `token` is counted up whenever the core is let run. */
  datatype RunState = RunState(running: bool, token: nat)

  function Resumed(s: RunState): RunState {
    if s.running then s else RunState(true, s.token + 1)
  }

  function WasReset(s: RunState): RunState {
    RunState(true, s.token + 1)
  }

  function Stepped(s: RunState): RunState {
    if s.running then s else s.(token := s.token + 1)
  }

  function Halted(s: RunState): RunState {
    s.(running := false)
  }

  /** After whatever the core does, a token seen before shows whether it may have run: equal tokens of a halted core
      mean that it stayed halted. */
  class Core {
    var running: bool
    var runToken: nat

    constructor ()
      ensures running && runToken == 0
    {
      running, runToken := true, 0;
    }

    function State(): RunState
      reads this
    {
      RunState(running, runToken)
    }

    method Resume()
      modifies this
      ensures State() == Resumed(old(State()))
    {
      if running { return; }
      runToken := runToken + 1;
      running := true;
    }

    method Reset()
      modifies this
      ensures State() == WasReset(old(State()))
    {
      runToken := runToken + 1;
      running := true;
    }

    method Step()
      modifies this
      ensures State() == Stepped(old(State()))
    {
      if running { return; }
      runToken := runToken + 1;
    }

    method Halt()
      modifies this
      ensures State() == Halted(old(State()))
    {
      running := false;
    }
  }
}
