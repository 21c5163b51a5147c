/** The `Keyboard` object of main.cpp:59-76 and the flow of `main` (main.cpp:418-458):
    a device handle that is either open or null, and the trace of every report handed
    to `hid_write`. Opening a device is a parameter: `open(vid, pid)` is what
    `hid_open` returns, `None` standing for a null handle. */
module Session {
  import opened Wrappers
  import opened Protocol
  import opened Tables
  import opened Reports
  import opened Identifiers
  import opened Colors

  /** An open HID device; its identity is all the model keeps of it. */
  datatype Handle = Handle(device: nat)

  /** A `Keyboard`: its handle and the reports it has written, oldest first. */
  datatype Keyboard = Keyboard(handle: Option<Handle>, sent: seq<seq<Byte>>)

  /** A keyboard before `attach`: null handle, nothing written. */
  const Fresh: Keyboard := Keyboard(None, [])

  /** `is_attached`. */
  predicate IsAttached(k: Keyboard)
  {
    k.handle.Some?
  }

  /** The reports `attach` writes after opening the device (main.cpp:72-74):
      special-function control, lighting control, then `send_k70_lighting_control`,
      which is one lighting-control report and the four identifier-table packets. */
  function AttachReports(): (reports: seq<seq<Byte>>)
    ensures |reports| == 7
    ensures reports[0] == SpecialFunctionControl() && reports[1] == LightingControl()
    ensures reports[2] == K70LightingControl()
    ensures reports[3..] == IdentifierTable(WalkIdentifiers())
  {
    [SpecialFunctionControl(), LightingControl(), K70LightingControl()] + IdentifierTable(WalkIdentifiers())
  }

  /** `attach(vendor_id, product_id)`: refuses when already attached, fails without
      writing when the device does not open, and otherwise keeps the handle and
      writes the configuration reports. */
  function Attach(k: Keyboard, vendorId: int, productId: int, open: (int, int) -> Option<Handle>): (res: (bool, Keyboard))
    ensures res.0 <==> !IsAttached(k) && open(vendorId, productId).Some?
    ensures !res.0 ==> res.1 == k
    ensures res.0 ==> res.1 == Keyboard(open(vendorId, productId), k.sent + AttachReports())
  {
    AttachWith(k, open(vendorId, productId), AttachReports())
  }

  /** `attach` once `hid_open` has answered `outcome`, with `config` the reports it
      writes on success. */
  function AttachWith(k: Keyboard, outcome: Option<Handle>, config: seq<seq<Byte>>): (res: (bool, Keyboard))
    ensures res.0 <==> !IsAttached(k) && outcome.Some?
    ensures !res.0 ==> res.1 == k
    ensures res.0 ==> res.1 == Keyboard(outcome, k.sent + config)
  {
    if IsAttached(k) then (false, k)
    else
      match outcome
      case None => (false, k)
      case Some(h) => (true, Keyboard(Some(h), k.sent + config))
  }

  /** After `attach` the keyboard is attached exactly when it was before or the
      device opened, and nothing written earlier is lost. */
  lemma AttachOutcome(k: Keyboard, vendorId: int, productId: int, open: (int, int) -> Option<Handle>)
    ensures IsAttached(Attach(k, vendorId, productId, open).1) <==> IsAttached(k) || open(vendorId, productId).Some?
    ensures Attach(k, vendorId, productId, open).1.sent[..|k.sent|] == k.sent
  {
    var after := Attach(k, vendorId, productId, open).1;
    assert after.sent == k.sent || after.sent == k.sent + AttachReports();
  }

  /** A second `attach` never succeeds, whatever `hid_open` would return: the
      configuration is written at most once per keyboard. */
  lemma AttachAtMostOnce(k: Keyboard, vendorId: int, productId: int, open: (int, int) -> Option<Handle>,
                         vendorId2: int, productId2: int, open2: (int, int) -> Option<Handle>)
    ensures var first := Attach(k, vendorId, productId, open);
      var second := Attach(first.1, vendorId2, productId2, open2);
      !(first.0 && second.0) && (first.0 ==> second.1 == first.1)
  {
  }

  /** `send_rgb` on this keyboard: the twelve colour reports for keys_k70_mk2 are
      appended to the trace. */
  function SendColors(k: Keyboard, colors: seq<Color>): (after: Keyboard)
    requires |colors| <= ZoneSize
    ensures after.handle == k.handle
    ensures |after.sent| == |k.sent| + 12
    ensures after.sent == k.sent + SendRgb(KeysK70Mk2, colors)
  {
    Keyboard(k.handle, k.sent + SendRgb(KeysK70Mk2, colors))
  }

  /** The attach loop of main.cpp:439-441, driven by the successive results of
      `hid_open`: it calls `attach` (writing `config` on success) until the keyboard is
      attached or the results run out (the interrupt that ends the loop early in the
      program). `tries` counts the calls made; the last of them is the first that
      opened the device. */
  method AttachLoop(k: Keyboard, opens: seq<Option<Handle>>, config: seq<seq<Byte>>) returns (after: Keyboard, tries: nat)
    requires !IsAttached(k)
    ensures tries <= |opens|
    ensures forall j | 0 <= j < tries - 1 :: opens[j].None?
    ensures IsAttached(after) ==> 0 < tries && after.handle == opens[tries - 1] && after.sent == k.sent + config
    ensures !IsAttached(after) ==> after == k && tries == |opens| && forall j | 0 <= j < |opens| :: opens[j].None?
  {
    after := k;
    tries := 0;
    while tries < |opens| && !IsAttached(after)
      invariant tries <= |opens|
      invariant forall j | 0 <= j < tries - 1 :: opens[j].None?
      invariant !IsAttached(after) ==> after == k && forall j | 0 <= j < tries :: opens[j].None?
      invariant IsAttached(after) ==> 0 < tries && after.handle == opens[tries - 1] && after.sent == k.sent + config
      decreases |opens| - tries
    {
      after := AttachWith(after, opens[tries], config).1;
      tries := tries + 1;
    }
  }

  /** `main` after argument parsing (main.cpp:437-455): attach, then, when the
      keyboard is attached, paint all 116 slots with the colour from the command line.
      The written reports are the seven configuration reports followed by the twelve
      colour reports, or nothing at all when the device never opened. */
  method Run(color: Color, opens: seq<Option<Handle>>) returns (k: Keyboard)
    ensures IsAttached(k) <==> exists i | 0 <= i < |opens| :: opens[i].Some?
    ensures IsAttached(k) ==> k.sent == AttachReports() + SendRgb(KeysK70Mk2, UniformColors(color))
    ensures !IsAttached(k) ==> k.sent == []
  {
    var tries;
    k, tries := AttachLoop(Fresh, opens, AttachReports());
    if IsAttached(k) {
      var colors := UniformColors(color);
      assert k.sent == AttachReports();
      k := SendColors(k, colors);
    }
  }
}
