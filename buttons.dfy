/** Front-panel buttons: the byte each key sends, the two readers that
    turn a read into at most one key, and the per-read step of the polling
    loops, which feeds a channel of capacity 10 and drops keys when it is
    full. Reads are I/O: their results (byte count, failure, buffer) are
    parameters. */
module Buttons {
  import opened Util
  import opened Devices

  type Button = bv8

  const ButtonNone: Button := 0x00
  const ButtonHelp: Button := 0x41
  const ButtonLeft: Button := 0x42
  const ButtonEsc: Button := 0x43
  const ButtonUp: Button := 0x44
  const ButtonEnter: Button := 0x45
  const ButtonDown: Button := 0x46
  const ButtonRight: Button := 0x47

  /** A byte that names a key. */
  predicate IsKey(b: Button) { ButtonHelp <= b <= ButtonRight }

  /** `String`: the key's name, "None" for every other byte. */
  function Name(b: Button): (s: string)
    ensures s != "None" <==> IsKey(b)
  {
    if b == ButtonUp then "Up"
    else if b == ButtonDown then "Down"
    else if b == ButtonLeft then "Left"
    else if b == ButtonRight then "Right"
    else if b == ButtonEnter then "Enter"
    else if b == ButtonEsc then "Escape"
    else if b == ButtonHelp then "Help"
    else "None"
  }

  /** Distinct keys have distinct names. */
  lemma NameInjective(a: Button, b: Button)
    requires IsKey(a) && IsKey(b) && Name(a) == Name(b)
    ensures a == b
  {
  }

  /** The key a one-byte read yields: none on a failure or an empty read,
      otherwise the byte read. */
  function FirstKey(n: int, failed: bool, buf: seq<bv8>): (b: Button)
    requires 0 <= n <= |buf|
    ensures b != ButtonNone ==> !failed && n >= 1 && b == buf[0]
    ensures !failed && n >= 1 ==> b == buf[0]
  {
    if failed || n == 0 then ButtonNone else buf[0]
  }

  class ButtonReader {
    const device: Device
    const timeout: int

    constructor New(device: Device, timeout: int)
      ensures this.device == device && this.timeout == timeout
    {
      this.device := device;
      this.timeout := timeout;
    }

    /** `ReadButton` over a device: its read returns no byte and end of
        file, so no key is ever reported. */
    method ReadButton() returns (b: Button)
      ensures b == ButtonNone
    {
      var buf := new bv8[1];
      var n, err := device.Read(buf);
      b := FirstKey(n, err.Some?, buf[..]);
    }
  }

  /** The last non-zero byte of a read, or none when every byte is zero. */
  function LastKey(s: seq<bv8>): Button
    decreases |s|
  {
    if s == [] then ButtonNone
    else if s[|s| - 1] != ButtonNone then s[|s| - 1]
    else LastKey(s[..|s| - 1])
  }

  /** `LastKey` is none exactly when all bytes are zero; otherwise it is a
      byte of the read after which only zeros follow. */
  lemma {:induction false} LastKeyMeaning(s: seq<bv8>)
    ensures LastKey(s) == ButtonNone <==> forall i :: 0 <= i < |s| ==> s[i] == ButtonNone
    ensures LastKey(s) != ButtonNone ==>
      exists i :: 0 <= i < |s| && s[i] == LastKey(s) && forall j :: i < j < |s| ==> s[j] == ButtonNone
    decreases |s|
  {
    if s != [] && s[|s| - 1] == ButtonNone {
      var init := s[..|s| - 1];
      LastKeyMeaning(init);
      assert forall i :: 0 <= i < |init| ==> init[i] == s[i];
      if LastKey(init) != ButtonNone {
        var i :| 0 <= i < |init| && init[i] == LastKey(init) && forall j :: i < j < |init| ==> init[j] == ButtonNone;
        assert s[i] == LastKey(s);
        assert forall j :: i < j < |s| ==> s[j] == ButtonNone;
      }
    } else if s != [] {
      assert s[|s| - 1] == LastKey(s);
    }
  }

  /** `SessionButtonReader.ReadButton` on a read of n bytes into `buf`:
      scans from the last byte read back to the first. */
  method SessionReadButton(buf: array<bv8>, n: int, failed: bool) returns (b: Button)
    requires 0 <= n <= buf.Length
    ensures b == if failed || n == 0 then ButtonNone else LastKey(buf[..n])
  {
    if failed || n == 0 {
      return ButtonNone;
    }
    var i := n - 1;
    while i >= 0
      invariant -1 <= i < n
      invariant LastKey(buf[..n]) == LastKey(buf[..i + 1])
    {
      assert buf[..i + 1][..i] == buf[..i];
      if buf[i] != ButtonNone {
        return buf[i];
      }
      i := i - 1;
    }
    return ButtonNone;
  }

  const QueueCapacity: int := 10

  /** The buffered channel the polling loops send keys into. */
  class ButtonQueue {
    var items: seq<Button>

    predicate Valid() reads this { |items| <= QueueCapacity }

    constructor ()
      ensures Valid() && items == []
    {
      items := [];
    }

    /** A non-blocking send: appended when there is room, dropped otherwise;
        queued keys are never disturbed. */
    method Offer(b: Button) returns (accepted: bool)
      requires Valid()
      modifies this
      ensures Valid()
      ensures accepted <==> |old(items)| < QueueCapacity
      ensures items == if accepted then old(items) + [b] else old(items)
    {
      if |items| < QueueCapacity {
        items := items + [b];
        accepted := true;
      } else {
        accepted := false;
      }
    }

    /** A receive: the oldest key, if any. */
    method Receive() returns (b: Option<Button>)
      requires Valid()
      modifies this
      ensures Valid()
      ensures old(items) == [] ==> b == None && items == []
      ensures old(items) != [] ==> b == Some(old(items)[0]) && items == old(items)[1..]
    {
      if items == [] {
        return None;
      }
      b := Some(items[0]);
      items := items[1..];
    }
  }

  /** The queue after offering key b; zero bytes are never sent. */
  function Offered(q: seq<Button>, b: Button): seq<Button>
  {
    if b == ButtonNone || |q| >= QueueCapacity then q else q + [b]
  }

  /** The queue after offering the bytes of a read in arrival order. */
  function Enqueued(q: seq<Button>, bytes: seq<bv8>): seq<Button>
    decreases |bytes|
  {
    if bytes == [] then q else Offered(Enqueued(q, bytes[..|bytes| - 1]), bytes[|bytes| - 1])
  }

  /** The non-zero bytes of a read, in order. */
  function Keys(bytes: seq<bv8>): (ks: seq<Button>)
    ensures forall i :: 0 <= i < |ks| ==> ks[i] != ButtonNone
    decreases |bytes|
  {
    if bytes == [] then []
    else Keys(bytes[..|bytes| - 1]) + (if bytes[|bytes| - 1] != ButtonNone then [bytes[|bytes| - 1]] else [])
  }

  /** The drop policy as a whole: the queued keys stay, then the read's
      non-zero keys follow in order until the capacity is reached, and
      everything after that is dropped. */
  lemma {:induction false} EnqueuedKeys(q: seq<Button>, bytes: seq<bv8>)
    requires |q| <= QueueCapacity
    ensures var room := QueueCapacity - |q|;
      Enqueued(q, bytes) == q + Keys(bytes)[..Min(room, |Keys(bytes)|)]
    decreases |bytes|
  {
    if bytes != [] {
      var init, b := bytes[..|bytes| - 1], bytes[|bytes| - 1];
      EnqueuedKeys(q, init);
      var room, ks := QueueCapacity - |q|, Keys(init);
      if b != ButtonNone && |ks| < room {
        assert Keys(bytes)[..Min(room, |Keys(bytes)|)] == ks[..Min(room, |ks|)] + [b];
      } else if b != ButtonNone {
        assert Keys(bytes)[..Min(room, |Keys(bytes)|)] == ks[..Min(room, |ks|)];
      } else {
        assert Keys(bytes) == ks + [];
      }
    }
  }

  /** The per-read step of `SessionButtonReader.ButtonChannel`: each
      non-zero byte of a successful read is offered in turn. */
  method PollSession(q: ButtonQueue, buf: array<bv8>, n: int, failed: bool)
    requires q.Valid() && 0 <= n <= buf.Length
    modifies q
    ensures q.Valid()
    ensures q.items == if failed || n == 0 then old(q.items) else Enqueued(old(q.items), buf[..n])
  {
    if !failed && n > 0 {
      for i := 0 to n
        invariant q.Valid()
        invariant q.items == Enqueued(old(q.items), buf[..i])
      {
        assert buf[..i + 1][..i] == buf[..i];
        var btn := buf[i];
        if btn != ButtonNone {
          var _ := q.Offer(btn);
        }
      }
      assert buf[..n] == buf[..n][..n];
    }
  }

  /** The per-read step of `ButtonReader.ButtonChannel`: the one byte of a
      successful read is offered when it is not zero. */
  method PollDevice(q: ButtonQueue, buf: array<bv8>, n: int, failed: bool)
    requires q.Valid() && buf.Length == 1 && 0 <= n <= 1
    modifies q
    ensures q.Valid()
    ensures q.items == Offered(old(q.items), FirstKey(n, failed, buf[..]))
  {
    if !failed && n > 0 {
      var btn := buf[0];
      if btn != ButtonNone {
        var _ := q.Offer(btn);
      }
    }
  }
}
