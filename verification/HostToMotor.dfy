/**
 A speed from the host's method to the motor's pins.
 */
module HostToMotor {
  import opened LmsMsg
  import opened LmsTyped
  import opened Motor
  import opened EmergencyStop

  /** A speed set on the host is received, decoded and accepted, and drives the motor: forwards if it is at
      least ten and the last look forward was not too near, backwards if it is at most minus ten and the
      last look backward was not, otherwise not at all - whatever was asked for and seen before. */
  lemma HostSpeedDrives(l: LinkState, events: seq<EmergencyStop.Event>, speed: int, ts: nat, verdicts: Verdicts)
    requires l.phase == LmsMsg.Idle && -100 <= speed <= 100
    ensures
      var payload := SpeedPayload(speed, ts);
      && RunBytes(l, Frame(payload), verdicts).delivered == l.delivered + [payload]
      && Decode(payload).SetSpeed?
      && -0x8000 <= Decode(payload).speed < 0x8000
      && var s := EmergencyStop.Run(events + [Command(Decode(payload).speed)]);
         && s.speed == (if -10 < speed < 10 then 0 else speed)
         && (s.m1 <==> speed >= 10 && !Near(events, Front))
         && (s.m0 <==> speed <= -10 && !Near(events, Rear))
         && s.duty == (if -10 < speed < 10 then 0 else if speed < 0 then -speed else speed)
  {
    hide Decode;
    hide SpeedPayload;
    hide RunBytes;
    SpeedArrives(l, speed, ts, verdicts);
    CommandDrives(events, if -10 < speed < 10 then 0 else speed);
  }

  lemma CommandDrives(events: seq<EmergencyStop.Event>, v: Int32)
    requires -100 <= v <= 100
    ensures
      var s := EmergencyStop.Run(events + [Command(v)]);
      && s.speed == v
      && (s.m1 <==> v > 0 && !Near(events, Front))
      && (s.m0 <==> v < 0 && !Near(events, Rear))
      && s.duty == if v < 0 then -v else v
  {
    hide EmergencyStop.Run;
    var all := events + [Command(v)];
    assert all + [] == all;
    AcceptedSpeedStays(events, v, []);
    StateIsHistory(all);
    NeverDrivenIntoStop(all);
    assert all[..|all| - 1] == events && all[|all| - 1] == Command(v);
    assert Near(all, Front) == Near(events, Front) && Near(all, Rear) == Near(events, Rear);
  }
}
