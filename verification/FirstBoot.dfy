/** The device's persistent identity and the first-boot run that creates it. */
module FirstBoot {
  import opened Common
  import opened Sorting

  // ---------------------------------------------------------------- sources

  predicate IsHex(c: char) {
    '0' <= c <= '9' || 'a' <= c <= 'f'
  }

  predicate IsMac(text: string) {
    |text| == 17 && forall i :: 0 <= i < 17 ==> if i % 3 == 2 then text[i] == ':' else IsHex(text[i])
  }

  /** The low bit of the first octet marks a group address. */
  predicate IsGroupMac(text: string)
    requires IsMac(text)
  {
    text[1] in {'1', '3', '5', '7', '9', 'b', 'd', 'f'}
  }

  predicate UsableMac(text: string) {
    IsMac(text) && text != "00:00:00:00:00:00" && !IsGroupMac(text)
  }

  predicate IsSerial(text: string) {
    && 1 <= |text| <= 128
    && forall c <- text ::
         'A' <= c <= 'Z' || 'a' <= c <= 'z' || '0' <= c <= '9' || c in {'_', '.', ':', '+', '/', '-'}
  }

  function LowerChar(c: char): char {
    if 'A' <= c <= 'Z' then (c as int + 32) as char else c
  }

  function Lower(text: string): (r: string)
    ensures |r| == |text|
  {
    if text == "" then "" else [LowerChar(text[0])] + Lower(text[1..])
  }

  predicate UsableSerial(text: string) {
    Lower(text) !in {"", "none", "unknown", "to be filled by o.e.m.", "default string"} && IsSerial(text)
  }

  /** The same letters, in either case. */
  ghost predicate SpellsOut(text: string, word: string) {
    |text| == |word| && forall i :: 0 <= i < |text| ==>
      text[i] == word[i] || ('a' <= word[i] <= 'z' && text[i] as int == word[i] as int - 32)
  }

  lemma {:induction false} LowerIs(text: string)
    ensures forall i :: 0 <= i < |text| ==> Lower(text)[i] == LowerChar(text[i])
  {
    if text != "" {
      LowerIs(text[1..]);
    }
  }

  lemma SpellsOutExactly(text: string, word: string)
    requires forall c <- word :: !('A' <= c <= 'Z')
    ensures Lower(text) == word <==> SpellsOut(text, word)
  {
    LowerIs(text);
    if SpellsOut(text, word) {
      forall i | 0 <= i < |text|
        ensures Lower(text)[i] == word[i]
      {
        assert word[i] in word;
      }
      assert Lower(text) == word;
    }
    if Lower(text) == word {
      forall i | 0 <= i < |text|
        ensures text[i] == word[i] || ('a' <= word[i] <= 'z' && text[i] as int == word[i] as int - 32)
      {
        assert Lower(text)[i] == LowerChar(text[i]);
      }
    }
  }

  /** A serial number is one to 128 letters, digits and plain marks, told by their code points, and none
      of the usual placeholders. */
  lemma UsableSerialIs(text: string)
    ensures UsableSerial(text) <==>
            && 1 <= |text| <= 128
            && (forall i :: 0 <= i < |text| ==>
                  var n := text[i] as int;
                  n == 43 || 45 <= n <= 58 || 65 <= n <= 90 || n == 95 || 97 <= n <= 122)
            && !SpellsOut(text, "none") && !SpellsOut(text, "unknown")
            && !SpellsOut(text, "to be filled by o.e.m.") && !SpellsOut(text, "default string")
  {
    assert forall i :: 0 <= i < |text| ==> text[i] in text;
    hide SpellsOut, Lower;
    SpellsOutExactly(text, "none");
    SpellsOutExactly(text, "unknown");
    SpellsOutExactly(text, "to be filled by o.e.m.");
    SpellsOutExactly(text, "default string");
  }

  /** A usable address is six pairs of lower-case hexadecimal digits between colons, not all zero and
      not a group's, so that its second digit is even. */
  lemma UsableMacIs(text: string)
    ensures UsableMac(text) <==>
            && |text| == 17
            && (forall i :: 0 <= i < 17 ==>
                  if i in {2, 5, 8, 11, 14} then text[i] == ':'
                  else text[i] in {'0', '1', '2', '3', '4', '5', '6', '7', '8', '9', 'a', 'b', 'c', 'd', 'e', 'f'})
            && (exists i :: 0 <= i < 17 && text[i] != ':' && text[i] != '0')
            && text[1] in {'0', '2', '4', '6', '8', 'a', 'c', 'e'}
  {
    assert forall i :: 0 <= i < 17 ==> (i % 3 == 2 <==> i in {2, 5, 8, 11, 14});
    var zero := "00:00:00:00:00:00";
    assert forall i :: 0 <= i < 17 ==> zero[i] == if i in {2, 5, 8, 11, 14} then ':' else '0';
    if |text| == 17 && text != zero && IsMac(text) {
      var i :| 0 <= i < 17 && text[i] != zero[i];
    }
  }

  predicate NoneUsable(files: seq<Option<string>>) {
    forall f <- files :: f.Some? ==> !UsableSerial(f.value)
  }

  /** `_read_serial`: the first file that holds a usable serial number. */
  method ReadSerial(files: seq<Option<string>>) returns (serial: Option<string>)
    ensures serial.None? <==> forall f <- files :: f.Some? ==> !UsableSerial(f.value)
    ensures serial.Some? ==> IsSerial(serial.value) && UsableSerial(serial.value)
    ensures serial.Some? ==> exists k :: 0 <= k < |files| && files[k] == serial && NoneUsable(files[..k])
  {
    for i := 0 to |files|
      invariant forall j :: 0 <= j < i && files[j].Some? ==> !UsableSerial(files[j].value)
    {
      if files[i].Some? && UsableSerial(files[i].value) {
        assert NoneUsable(files[..i]);
        return files[i];
      }
    }
    serial := None;
  }

  /** An interface other than the loopback whose address file holds a usable address. */
  predicate Candidate(interfaces: map<string, Option<string>>, name: string) {
    name in interfaces && name != "lo" && interfaces[name].Some? && UsableMac(interfaces[name].value)
  }

  ghost predicate IsFirst(interfaces: map<string, Option<string>>, name: string) {
    && name in interfaces && name != "lo" && interfaces[name].Some? && UsableMac(interfaces[name].value)
    && forall other <- interfaces ::
         other != "lo" && interfaces[other].Some? && UsableMac(interfaces[other].value) ==> StringLe(name, other)
  }

  /** `_read_mac`: the address of the candidate whose name sorts first; an error when there is none. */
  method ReadMac(interfaces: map<string, Option<string>>) returns (mac: Option<string>)
    ensures mac.None? <==>
            forall name <- interfaces :: name == "lo" || interfaces[name].None? || !UsableMac(interfaces[name].value)
    ensures mac.Some? ==> IsMac(mac.value) && exists name :: IsFirst(interfaces, name) && interfaces[name] == mac
  {
    var names := SortedSet(interfaces.Keys);
    var candidates: seq<string> := [];
    ghost var first := "";
    for i := 0 to |names|
      invariant candidates == [] ==> forall name <- names[..i] :: !Candidate(interfaces, name)
      invariant candidates != [] ==>
                  && Candidate(interfaces, first) && interfaces[first] == Some(candidates[0])
                  && (exists k :: 0 <= k < i && names[k] == first)
                  && forall name <- names[..i] :: Candidate(interfaces, name) ==> StringLe(first, name)
    {
      var name := names[i];
      assert names[..i + 1] == names[..i] + [name];
      if Candidate(interfaces, name) {
        StringTotal(name, name);
        if candidates == [] {
          first := name;
        }
        candidates := candidates + [interfaces[name].value];
      }
    }
    assert names[..|names|] == names;
    if candidates == [] {
      return None;
    }
    mac := Some(candidates[0]);
    assert IsFirst(interfaces, first);
  }

  // ---------------------------------------------------------------- identity

  datatype Identity = Identity(uuid: string, serial: string, mac: string, hostname: string)

  function FirstPart(uuid: string): string {
    if uuid == "" || uuid[0] == '-' then "" else [uuid[0]] + FirstPart(uuid[1..])
  }

  function Hostname(prefix: string, uuid: string): string {
    prefix + "-" + FirstPart(uuid)
  }

  predicate IsHostChar(c: char) {
    'a' <= c <= 'z' || '0' <= c <= '9'
  }

  predicate IsHost(text: string) {
    && 1 <= |text| <= 63 && IsHostChar(text[0]) && IsHostChar(text[|text| - 1])
    && forall c <- text :: IsHostChar(c) || c == '-'
  }

  /** A host name: letters, digits and hyphens, with no hyphen at either end. */
  lemma HostIs(text: string)
    ensures IsHost(text) <==>
            && 1 <= |text| <= 63 && text[0] != '-' && text[|text| - 1] != '-'
            && forall c <- text :: c == '-' || c in {
                 'a', 'b', 'c', 'd', 'e', 'f', 'g', 'h', 'i', 'j', 'k', 'l', 'm', 'n', 'o', 'p', 'q', 'r', 's', 't',
                 'u', 'v', 'w', 'x', 'y', 'z', '0', '1', '2', '3', '4', '5', '6', '7', '8', '9'}
  {
    if text != "" {
      assert text[0] in text && text[|text| - 1] in text;
    }
  }

  predicate IsUuid(text: string) {
    |text| == 36 && forall i :: 0 <= i < 36 ==> if i in {8, 13, 18, 23} then text[i] == '-' else IsHex(text[i])
  }

  function WithoutHyphens(text: string): string {
    if text == "" then "" else (if text[0] == '-' then "" else [text[0]]) + WithoutHyphens(text[1..])
  }

  predicate WellFormed(i: Identity) {
    IsUuid(i.uuid) && IsSerial(i.serial) && IsMac(i.mac) && IsHost(i.hostname)
  }

  /** Read as ASCII with other characters dropped, nothing but white space is left. */
  predicate IsBlank(text: string) {
    forall c <- text :: c as int >= 128 || IsSpace(c)
  }

  /** The root the installed executable passes. */
  const INSTALLED_ROOT: Root := []

  datatype BootState = Completed(uuid: string) | Failed

  /** What one run finds in the machine and draws by chance. */
  datatype Surroundings = Surroundings(
    hardwareOk: bool, serials: seq<Option<string>>, interfaces: map<string, Option<string>>, drawn: string)

  /** The surroundings give an identity: a serial number, an address, and a host name. */
  ghost predicate Identifiable(s: Surroundings, prefix: string) {
    && (exists f <- s.serials :: f.Some? && UsableSerial(f.value))
    && (exists name <- s.interfaces ::
          name != "lo" && s.interfaces[name].Some? && UsableMac(s.interfaces[name].value))
    && IsHost(Hostname(prefix, s.drawn))
  }

  /** An identity is there already or can be made, and the root is one the manager accepts. */
  ghost predicate CanIdentify(s: Surroundings, prefix: string, root: Root, identity: Option<Identity>) {
    SafeRoot(root) && (identity.Some? || Identifiable(s, prefix))
  }

  /** How a run ended: a report, an exception, or a power cut, which may come after a failure but
      before the failure is recorded. */
  datatype Report = Reported(uuid: string) | Error | PowerCut(afterFailure: bool)

  class Device {
    const root: Root
    const prefix: string
    var identity: Option<Identity>       // the identity's state file
    var hostname: Option<string>
    var machineId: Option<string>
    var certificate: bool
    var key: bool
    var state: Option<BootState>         // the first-boot state file
    var marker: bool

    /** Some run failed after it had created the marker file. */
    ghost var spoiled: bool

    /** No step since the device was imaged has failed. */
    ghost var calm: bool

    /** What every run keeps, wherever it is cut. */
    ghost predicate Valid()
      reads this
    {
      && (identity.Some? ==>
            && WellFormed(identity.value) && certificate && key
            && hostname == Some(identity.value.hostname + "\n")
            && machineId.Some? && !IsBlank(machineId.value))
      && (state.Some? && state.value.Completed? ==> identity.Some? && state.value.uuid == identity.value.uuid)
      && (!spoiled ==> MarkerHolds()) && (spoiled ==> marker)
    }

    /** The marker implies a completed state. */
    predicate MarkerHolds()
      reads this`marker, this`state
    {
      marker ==> state.Some? && state.value.Completed?
    }

    /** A freshly imaged device: it may carry a host name and a machine id already. */
    constructor (root: Root, prefix: string, hostname: Option<string>, machineId: Option<string>)
      ensures Valid() && this.root == root && this.prefix == prefix
      ensures this.hostname == hostname && this.machineId == machineId
      ensures identity.None? && state.None? && !marker && !spoiled && calm
    {
      this.root, this.prefix, this.hostname, this.machineId := root, prefix, hostname, machineId;
      identity, state, certificate, key, marker, spoiled := None, None, false, false, false, false;
      calm := true;
    }

    // -------------------------------------------------------------- steps

    /** Reading a file: it may fail, and changes nothing. */
    method Read() returns (o: Outcome)
      modifies this`calm
      ensures calm <==> old(calm) && o.Done?
    {
      o := *;
      calm := calm && o.Done?;
    }

    method WriteHostname(text: string) returns (o: Outcome)
      modifies this`hostname, this`calm
      ensures calm <==> old(calm) && o.Done?
      ensures o.Done? ==> hostname == Some(text)
    {
      o := *;
      hostname := *;
      if o.Done? {
        hostname := Some(text);
      }
      calm := calm && o.Done?;
    }

    method WriteMachineId(text: string) returns (o: Outcome)
      modifies this`machineId, this`calm
      ensures calm <==> old(calm) && o.Done?
      ensures o.Done? ==> machineId == Some(text)
    {
      o := *;
      machineId := *;
      if o.Done? {
        machineId := Some(text);
      }
      calm := calm && o.Done?;
    }

    /** openssl, the clean-up after it fails, and the check that it produced both files. */
    method MakeCertificate() returns (o: Outcome)
      modifies this`certificate, this`key, this`calm
      ensures calm <==> old(calm) && o.Done?
      ensures o.Done? ==> certificate && key
    {
      o := *;
      certificate, key := *, *;
      if o.Raised? {
        certificate, key := false, false;
      }
      if o.Done? && (!certificate || !key) {
        o := Raised;
      }
      calm := calm && o.Done?;
    }

    /** The atomic replacement of the identity's state file. */
    method WriteIdentity(i: Identity) returns (o: Outcome)
      modifies this`identity, this`calm
      ensures calm <==> old(calm) && o.Done?
      ensures o.Done? ==> identity == Some(i)
      ensures identity == old(identity) || identity == Some(i)
    {
      o := *;
      var reached: bool := *;
      if o.Done? || (o.Crashed? && reached) {
        identity := Some(i);
      }
      calm := calm && o.Done?;
    }

    method WriteState(s: BootState) returns (o: Outcome)
      modifies this`state, this`calm
      ensures calm <==> old(calm) && o.Done?
      ensures o.Done? ==> state == Some(s)
      ensures state == old(state) || state == Some(s)
    {
      o := *;
      var reached: bool := *;
      if o.Done? || (o.Crashed? && reached) {
        state := Some(s);
      }
      calm := calm && o.Done?;
    }

    /** `write_text` and `chmod` of the marker: either may fail once the file exists. */
    method CreateMarker() returns (o: Outcome)
      modifies this`marker, this`spoiled, this`calm
      ensures calm <==> old(calm) && o.Done?
      ensures o.Done? ==> marker && spoiled == old(spoiled)
      ensures marker == old(marker) || marker
      ensures spoiled <==> old(spoiled) || (o.Raised? && marker)
    {
      o := *;
      var created: bool := *;
      if o.Done? || created {
        marker := true;
      }
      spoiled := spoiled || (o.Raised? && marker);
      calm := calm && o.Done?;
    }

    // -------------------------------------------------------------- identity

    /** `DeviceIdentityManager.create`: refused under an unsafe root whatever is there.  Otherwise an
        existing identity that can be read is returned as it is, and nothing is touched; a new one is
        recorded only after the host name, the machine id and the certificate are in place. */
    method CreateIdentity(s: Surroundings) returns (o: Outcome, i: Identity)
      requires Valid() && IsUuid(s.drawn)
      modifies this`identity, this`hostname, this`machineId, this`certificate, this`key, this`calm
      ensures calm ==> old(calm)
      ensures o.Done? && old(calm) ==> calm
      ensures calm ==> (o.Done? <==> CanIdentify(s, prefix, root, old(identity)))
      ensures o.Done? ==> CanIdentify(s, prefix, root, old(identity)) && identity == Some(i)
      ensures |root| < 2 ==> o.Raised? && unchanged(this)
      ensures calm && |root| >= 2 && old(identity).Some? ==> o.Done?
      ensures Valid()
      ensures old(identity).Some? ==>
                identity == old(identity) && hostname == old(hostname) && machineId == old(machineId)
      ensures o.Done? && old(identity).None? ==>
                && i.uuid == s.drawn && i.hostname == prefix + "-" + s.drawn[..8]
                && machineId == if old(machineId).None?
                                   || forall c <- old(machineId).value :: c as int >= 128 || IsSpace(c)
                                then Some(Digits(s.drawn) + "\n") else old(machineId)
      ensures o.Done? && old(identity).None? ==>
                && (exists k :: 0 <= k < |s.serials| && s.serials[k] == Some(i.serial) && NoneUsable(s.serials[..k]))
                && (exists name :: IsFirst(s.interfaces, name) && s.interfaces[name] == Some(i.mac))
    {
      UuidParts(s.drawn);
      hide IsUuid, FirstPart, WithoutHyphens, IsSpace, IsSerial, IsMac, IsHost, UsableSerial;
      i := Identity("", "", "", "");
      if !SafeRoot(root) {
        o := Raised;
        return;
      }
      o := Read();
      if o.IsFailure() {
        return;
      }
      if identity.Some? {
        i := identity.value;
        return;
      }
      o, i := CreateNew(s);
    }

    /** The identity's files in the order in which they are written, the state file last. */
    method CreateNew(s: Surroundings) returns (o: Outcome, i: Identity)
      requires Valid() && IsUuid(s.drawn) && identity.None?
      modifies this`identity, this`hostname, this`machineId, this`certificate, this`key, this`calm
      ensures calm ==> old(calm)
      ensures o.Done? && old(calm) ==> calm
      ensures o.Done? ==> Identifiable(s, prefix)
      ensures calm && Identifiable(s, prefix) ==> o.Done?
      ensures Valid()
      ensures o.Done? ==>
                && (exists k :: 0 <= k < |s.serials| && s.serials[k] == Some(i.serial) && NoneUsable(s.serials[..k]))
                && (exists name :: IsFirst(s.interfaces, name) && s.interfaces[name] == Some(i.mac))
      ensures o.Done? ==>
                && identity == Some(i) && i.uuid == s.drawn && i.hostname == Hostname(prefix, s.drawn)
                && machineId == if old(machineId).None? || IsBlank(old(machineId).value)
                                then Some(WithoutHyphens(s.drawn) + "\n") else old(machineId)
    {
      hide IsSerial, IsMac, IsHost, IsUuid, UsableSerial, IsBlank, WithoutHyphens, FirstPart;
      i := Identity("", "", "", "");
      var serial := ReadSerial(s.serials);
      var mac := ReadMac(s.interfaces);
      var name := Hostname(prefix, s.drawn);
      if serial.None? || mac.None? || !IsHost(name) {
        o := Raised;
        return;
      }
      o := WriteHostname(name + "\n");
      if o.IsFailure() {
        return;
      }
      o := FillMachineId(s.drawn);
      if o.IsFailure() {
        return;
      }
      o := MakeCertificate();
      if o.IsFailure() {
        return;
      }
      NotBlank(s.drawn);
      i := Identity(s.drawn, serial.value, mac.value, name);
      o := WriteIdentity(i);
    }

    /** A machine id that is there already is kept. */
    method FillMachineId(uuid: string) returns (o: Outcome)
      modifies this`machineId, this`calm
      ensures calm <==> old(calm) && o.Done?
      ensures o.Done? ==>
                machineId == if old(machineId).None? || IsBlank(old(machineId).value)
                             then Some(WithoutHyphens(uuid) + "\n") else old(machineId)
    {
      o := Read();
      if o.Done? && (machineId.None? || IsBlank(machineId.value)) {
        o := WriteMachineId(WithoutHyphens(uuid) + "\n");
      }
    }

    // -------------------------------------------------------------- the run

    /** `FirstBootRunner.run`.  Whatever fails or is cut off, an identity once recorded never changes,
        and a run that completes reports it.  A run that is cut short without a failure keeps the
        marker honest; a marker without a completed state makes every later run fail.  Under a root
        the identity manager refuses, no run completes unless one has done so before. */
    method Run(s: Surroundings) returns (r: Report)
      requires Valid() && IsUuid(s.drawn)
      modifies this
      ensures calm ==> old(calm)
      ensures r.Reported? && old(calm) ==> calm
      ensures !old(marker) && r.Reported? ==> s.hardwareOk && CanIdentify(s, prefix, root, old(identity))
      ensures !old(marker) && calm && s.hardwareOk && CanIdentify(s, prefix, root, old(identity)) ==> r.Reported?
      ensures !old(marker) && |root| < 2 ==> identity == old(identity) && !marker && !r.Reported?
      ensures Valid()
      ensures old(identity).Some? ==>
                identity == old(identity) && hostname == old(hostname) && machineId == old(machineId)
      ensures r.Reported? ==>
                && identity.Some? && r.uuid == identity.value.uuid
                && hostname == Some(identity.value.hostname + "\n")
                && marker && state == Some(Completed(r.uuid))
      ensures !old(marker) ==> (spoiled <==> marker && (r.Error? || r == PowerCut(true)))
      ensures old(MarkerHolds()) && !MarkerHolds() ==> r.Error? || r == PowerCut(true)
      ensures old(marker) ==>
                && unchanged(`identity, `hostname, `machineId, `certificate, `key, `state, `marker, `spoiled)
                && r != PowerCut(true) && (r.Reported? ==> MarkerHolds())
                && (calm && MarkerHolds() ==> r.Reported?)
      ensures !old(marker) && !s.hardwareOk ==> !r.Reported? && identity == old(identity) && !marker
    {
      if marker {
        var read := Read();
        if read.Crashed? {
          return PowerCut(false);
        }
        if read.Raised? || state.None? || !state.value.Completed? {
          return Error;
        }
        return Reported(state.value.uuid);
      }
      var o, uuid := Attempt(s);
      match o
      case Crashed => r := PowerCut(false);
      case Done => r := Reported(uuid);
      case Raised =>
        var recorded := WriteState(Failed);
        r := if recorded.Crashed? then PowerCut(true) else Error;
    }

    /** The body of the run's `try`. */
    method Attempt(s: Surroundings) returns (o: Outcome, uuid: string)
      requires Valid() && IsUuid(s.drawn) && !marker
      modifies this
      ensures calm ==> old(calm)
      ensures o.Done? && old(calm) ==> calm
      ensures o.Done? ==> s.hardwareOk && CanIdentify(s, prefix, root, old(identity))
      ensures calm && s.hardwareOk && CanIdentify(s, prefix, root, old(identity)) ==> o.Done?
      ensures Valid() && (spoiled <==> o.Raised? && marker)
      ensures old(identity).Some? ==>
                identity == old(identity) && hostname == old(hostname) && machineId == old(machineId)
      ensures o.Done? ==> identity.Some? && uuid == identity.value.uuid && marker && state == Some(Completed(uuid))
      ensures !s.hardwareOk || !SafeRoot(root) ==> o.Raised? && unchanged(this)
    {
      uuid := "";
      if !s.hardwareOk {
        return Raised, uuid;
      }
      var i;
      o, i := CreateIdentity(s);
      if o.IsFailure() {
        return;
      }
      uuid := i.uuid;
      o := WriteState(Completed(i.uuid));
      if o.IsFailure() {
        return;
      }
      o := CreateMarker();
    }
  }

  lemma {:induction false} FirstPartIs(text: string, n: nat)
    requires n <= |text| && '-' !in text[..n] && (n < |text| ==> text[n] == '-')
    ensures FirstPart(text) == text[..n]
  {
    if n > 0 {
      assert text[0] in text[..n];
      assert text[..n][1..] == text[1..][..n - 1];
      FirstPartIs(text[1..], n - 1);
    }
  }

  lemma {:induction false} HyphensJoin(a: string, b: string)
    ensures WithoutHyphens(a + b) == WithoutHyphens(a) + WithoutHyphens(b)
  {
    if a == "" {
      assert a + b == b;
    } else {
      assert (a + b)[1..] == a[1..] + b;
      HyphensJoin(a[1..], b);
    }
  }

  lemma {:induction false} HexStays(a: string)
    requires forall c <- a :: IsHex(c)
    ensures WithoutHyphens(a) == a
  {
    if a != "" {
      assert a[0] in a && a == [a[0]] + a[1..];
      HexStays(a[1..]);
    }
  }

  /** A UUID's thirty-two digits. */
  ghost function Digits(uuid: string): string
    requires |uuid| == 36
  {
    uuid[..8] + uuid[9..13] + uuid[14..18] + uuid[19..23] + uuid[24..]
  }

  lemma HexRun(uuid: string, i: nat, j: nat)
    requires i <= j <= |uuid| && forall k :: i <= k < j ==> IsHex(uuid[k])
    ensures WithoutHyphens(uuid[i..]) == uuid[i..j] + WithoutHyphens(uuid[j..])
  {
    assert uuid[i..] == uuid[i..j] + uuid[j..];
    HyphensJoin(uuid[i..j], uuid[j..]);
    HexStays(uuid[i..j]);
  }

  /** A run of digits, and past the hyphen after it. */
  lemma PartOf(uuid: string, i: nat, j: nat)
    requires i <= j < |uuid| && uuid[j] == '-' && forall k :: i <= k < j ==> IsHex(uuid[k])
    ensures WithoutHyphens(uuid[i..]) == uuid[i..j] + WithoutHyphens(uuid[j + 1..])
  {
    HexRun(uuid, i, j);
    assert uuid[j..][1..] == uuid[j + 1..];
  }

  lemma UuidShape(uuid: string)
    requires IsUuid(uuid)
    ensures |uuid| == 36 && uuid[8] == '-' && uuid[13] == '-' && uuid[18] == '-' && uuid[23] == '-'
    ensures forall k :: 0 <= k < 8 || 9 <= k < 13 || 14 <= k < 18 || 19 <= k < 23 || 24 <= k < 36 ==> IsHex(uuid[k])
  {
  }

  /** Up to the first hyphen a UUID has eight digits, and without its hyphens just its digits. */
  lemma UuidParts(uuid: string)
    requires IsUuid(uuid)
    ensures FirstPart(uuid) == uuid[..8]
    ensures WithoutHyphens(uuid) == Digits(uuid)
  {
    FirstPartIs(uuid, 8);
    UuidShape(uuid);
    hide IsUuid, WithoutHyphens, IsHex, FirstPart;
    var part5 := uuid[24..];
    assert WithoutHyphens(part5) == part5 by {
      HexStays(part5);
    }
    PartOf(uuid, 0, 8);
    PartOf(uuid, 9, 13);
    PartOf(uuid, 14, 18);
    PartOf(uuid, 19, 23);
    assert uuid[0..] == uuid && uuid[0..8] == uuid[..8];
    Associate(uuid[..8], uuid[9..13], uuid[14..18], uuid[19..23], part5);
  }

  lemma Associate(a: string, b: string, c: string, d: string, e: string)
    ensures a + (b + (c + (d + e))) == a + b + c + d + e
  {
  }

  /** Two devices of one prefix share a host name exactly if their UUIDs share the first eight digits. */
  lemma HostnamesAgree(prefix: string, u: string, v: string)
    requires IsUuid(u) && IsUuid(v)
    ensures Hostname(prefix, u) == Hostname(prefix, v) <==> u[..8] == v[..8]
  {
    UuidParts(u);
    UuidParts(v);
    var a, b := Hostname(prefix, u), Hostname(prefix, v);
    assert a[|prefix| + 1..] == u[..8] && b[|prefix| + 1..] == v[..8];
  }

  lemma NotBlank(uuid: string)
    requires IsUuid(uuid)
    ensures !IsBlank(WithoutHyphens(uuid) + "\n")
  {
    var text := WithoutHyphens(uuid) + "\n";
    assert IsHex(uuid[0]);
    assert WithoutHyphens(uuid) == [uuid[0]] + WithoutHyphens(uuid[1..]);
    assert text[0] == uuid[0] && text[0] in text;
  }

  /** Over any number of runs, with any hardware failures and power cuts, every run that completes
      reports one and the same identity, that of the state file, and the host name agrees with it.
      As long as runs end only by completing or by a power cut, the marker implies a completed state;
      from a marker without one no run ever completes, and under an unsafe root none does either. */
  method RunRepeatedly(d: Device, runs: seq<Surroundings>) returns (reports: seq<Report>)
    requires d.Valid() && forall s <- runs :: IsUuid(s.drawn)
    modifies d
    ensures d.Valid() && |reports| == |runs|
    ensures forall r <- reports :: r.Reported? ==>
              && d.identity.Some? && r.uuid == d.identity.value.uuid
              && d.hostname == Some(d.identity.value.hostname + "\n")
    ensures !SafeRoot(d.root) && !old(d.marker) ==>
              !d.marker && d.identity == old(d.identity) && forall r <- reports :: !r.Reported?
    ensures old(d.identity).Some? ==> d.identity == old(d.identity) && d.hostname == old(d.hostname)
    ensures old(d.MarkerHolds()) && (forall r <- reports :: r.Reported? || r == PowerCut(false)) ==> d.MarkerHolds()
    ensures !old(d.MarkerHolds()) ==>
              && !d.MarkerHolds() && d.identity == old(d.identity) && d.state == old(d.state)
              && forall r <- reports :: !r.Reported?
  {
    reports := [];
    for k := 0 to |runs|
      invariant d.Valid() && |reports| == k
      invariant forall r <- reports :: r.Reported? ==> d.identity.Some? && r.uuid == d.identity.value.uuid
      invariant old(d.identity).Some? ==> d.identity == old(d.identity) && d.hostname == old(d.hostname)
      invariant old(d.MarkerHolds()) && (forall r <- reports :: r.Reported? || r == PowerCut(false)) ==> d.MarkerHolds()
      invariant !SafeRoot(d.root) && !old(d.marker) ==>
                  !d.marker && d.identity == old(d.identity) && forall r <- reports :: !r.Reported?
      invariant !old(d.MarkerHolds()) ==>
                  && d.marker && d.identity == old(d.identity) && d.state == old(d.state)
                  && forall r <- reports :: !r.Reported?
    {
      var r := d.Run(runs[k]);
      ghost var earlier := reports;
      reports := reports + [r];
      assert forall x :: x in reports <==> x in earlier || x == r;
    }
  }

  /** The service as it is installed passes `/`: from a freshly imaged device, however sound the
      hardware, no run completes and no identity is ever recorded. */
  method AsInstalled(prefix: string, hostname: Option<string>, machineId: Option<string>, runs: seq<Surroundings>)
    returns (d: Device, reports: seq<Report>)
    requires forall s <- runs :: IsUuid(s.drawn)
    ensures |reports| == |runs| && forall r <- reports :: r.Error? || r.PowerCut?
    ensures d.identity.None? && !d.marker && (d.state.Some? ==> d.state.value.Failed?)
  {
    d := new Device(INSTALLED_ROOT, prefix, hostname, machineId);
    reports := RunRepeatedly(d, runs);
  }
}
