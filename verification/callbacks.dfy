/**
 The connection callbacks the transport invokes on the configurator, and the
 connection state they drive: connected after a connect, not connected after a
 disconnect, with advertising restarted on every disconnect.
 */
module Callbacks {
  import opened Preferences
  import opened Configurator

  /** `isDeviceConnected`: whether a client is connected now. */
  function IsDeviceConnected(dev: Device): (connected: bool)
    ensures connected <==> dev.connected
  {
    dev.connected
  }

  /**
   `onConnect`: a client is now connected. Only the flag changes, so a connect
   that is followed by a disconnect leaves no trace.
   */
  function OnConnect(dev: Device): (r: Device)
    ensures IsDeviceConnected(r)
    ensures OnDisconnect(r) == OnDisconnect(dev)
  {
    dev.(connected := true)
  }

  /** `onDisconnect`: no client is connected, and advertising has been started once more. */
  function OnDisconnect(dev: Device): (r: Device)
    ensures !IsDeviceConnected(r)
    ensures r.advertStarts == dev.advertStarts + 1
    ensures r.store == dev.store && r.characteristic == dev.characteristic
    ensures r.configMap == dev.configMap && r.notifies == dev.notifies
  {
    dev.(connected := false, advertStarts := dev.advertStarts + 1)
  }

  /** What the transport reports. */
  datatype Event = Connect | Disconnect

  function Step(dev: Device, e: Event): Device {
    match e
    case Connect => OnConnect(dev)
    case Disconnect => OnDisconnect(dev)
  }

  /** The state after the transport reports `events` in order. */
  function Run(dev: Device, events: seq<Event>): Device
    decreases |events|
  {
    if |events| == 0 then dev else Run(Step(dev, events[0]), events[1..])
  }

  function Disconnects(events: seq<Event>): nat {
    if |events| == 0 then 0
    else (if events[0] == Disconnect then 1 else 0) + Disconnects(events[1..])
  }

  /** The flag always follows the latest event; with no event it is as it was. */
  lemma {:induction false} RunConnected(dev: Device, events: seq<Event>)
    decreases |events|
    ensures IsDeviceConnected(Run(dev, events))
              == if |events| == 0 then IsDeviceConnected(dev) else events[|events| - 1] == Connect
  {
    if |events| > 0 {
      RunConnected(Step(dev, events[0]), events[1..]);
    }
  }

  /** Advertising is started once per disconnect, and nothing but the flag and that count changes. */
  lemma {:induction false} RunEffects(dev: Device, events: seq<Event>)
    decreases |events|
    ensures var r := Run(dev, events);
            r.advertStarts == dev.advertStarts + Disconnects(events)
            && r == dev.(connected := r.connected, advertStarts := r.advertStarts)
  {
    if |events| > 0 {
      RunEffects(Step(dev, events[0]), events[1..]);
    }
  }

  /** From power-on, a client is connected exactly when the latest event was a connect. */
  lemma ConnectedFromPowerOn(st: Store, events: seq<Event>)
    ensures IsDeviceConnected(Run(PowerOn(st), events))
            <==> (|events| > 0 && events[|events| - 1] == Connect)
  {
    RunConnected(PowerOn(st), events);
  }
}
