// What an approval is bound to (crates/core/src/mcp.rs). Texts are UTF-8 bytes,
// one `char` per byte, so lengths and the order of texts are those of Rust's
// `str`. SHA-256 with its hexadecimal rendering is the parameter `digest`.
module McpFingerprint {
  import opened Wrappers
  import opened Ordering
  import Decimal

  const MAX_CLIENT_ID_BYTES := 128
  const MAX_CAPABILITY_BYTES := 128
  const MAX_TARGET_ID_BYTES := 256
  const MAX_FINGERPRINT_BYTES := 384
  const MAX_BATCH_TARGETS := 100

  const BULK_DELETE := "bulk_delete"
  const BULK_PERMANENT_DELETE := "bulk_permanent_delete"
  const DELETE_FOLDER := "delete_folder"
  const SEND_DRAFT := "send_draft"

  // C0 controls, DEL, and the two-byte encodings of U+0080 to U+009F.
  predicate ControlAt(value: string, i: nat)
    requires i < |value|
  {
    || value[i] < ' '
    || value[i] == '\U{7F}'
    || (value[i] == '\U{C2}' && i + 1 < |value| && '\U{80}' <= value[i + 1] <= '\U{9F}')
  }

  predicate ValidIdentifier(value: string, maxBytes: nat) {
    && value != ""
    && |value| <= maxBytes
    && forall i | 0 <= i < |value| :: !ControlAt(value, i)
  }

  // `to_be_bytes` of an unsigned integer of `width` bytes.
  function BigEndian(n: nat, width: nat): (r: string)
    ensures |r| == width
  {
    if width == 0 then "" else BigEndian(n / 256, width - 1) + [(n % 256) as char]
  }

  function Capacity(width: nat): nat {
    if width == 0 then 1 else 256 * Capacity(width - 1)
  }

  function Frame(value: string): string {
    BigEndian(|value|, 8) + value
  }

  function Frames(values: seq<string>): string {
    if values == [] then "" else Frames(values[..|values| - 1]) + Frame(values[|values| - 1])
  }

  function Domain(capability: string): string {
    "feathermail:mcp:" + capability + ":v1"
  }

  predicate BatchCapability(capability: string) {
    capability == BULK_DELETE || capability == BULK_PERMANENT_DELETE
  }

  // The input of the hash for one batch; `ids` are in sorted order.
  function BatchPreimage(capability: string, account: string, ids: seq<string>): string {
    Domain(capability) + Frame(account) + BigEndian(|ids|, 8) + Frames(ids)
  }

  function FolderPreimage(account: string, folder: string): string {
    Domain(DELETE_FOLDER) + Frame(account) + Frame(folder)
  }

  ghost predicate AcceptableBatch(capability: string, account: string, ids: seq<string>) {
    && BatchCapability(capability)
    && ValidIdentifier(account, MAX_TARGET_ID_BYTES)
    && 0 < |ids| <= MAX_BATCH_TARGETS
    && (forall i | 0 <= i < |ids| :: ValidIdentifier(ids[i], MAX_TARGET_ID_BYTES))
    && Distinct(ids)
  }

  ghost predicate AcceptableFolder(account: string, folder: string) {
    ValidIdentifier(account, MAX_TARGET_ID_BYTES) && ValidIdentifier(folder, MAX_TARGET_ID_BYTES)
  }

  // The text stored with a request: capability, version, hexadecimal digest.
  function Stamp(capability: string, hex: string): string {
    capability + ":v1:" + hex
  }

  ghost function BatchFingerprint(digest: string -> string, capability: string, account: string,
                                  ids: seq<string>): string {
    Stamp(capability, digest(BatchPreimage(capability, account, Sort(ids, TextLe))))
  }

  ghost function FolderFingerprint(digest: string -> string, account: string, folder: string): string {
    Stamp(DELETE_FOLDER, digest(FolderPreimage(account, folder)))
  }

  function SendFingerprint(draft: string, revision: int): string {
    "send:" + draft + ":" + Decimal.Render(revision)
  }

  // An identifier of 1 to 256 bytes without a control character.
  ghost predicate Id256(value: string) {
    && 1 <= |value| <= 256
    && (forall c | c in value :: 32 <= c as int && c as int != 127)
    && (forall i | 0 <= i < |value| - 1 :: !(value[i] as int == 194 && 128 <= value[i + 1] as int < 160))
  }

  // What may be asked for in bulk: 1 to 100 different threads of an account, and two
  // deletions to ask for.
  lemma AcceptableIs(capability: string, account: string, ids: seq<string>)
    ensures AcceptableBatch(capability, account, ids) <==>
            && capability in {"bulk_delete", "bulk_permanent_delete"}
            && Id256(account) && 1 <= |ids| <= 100
            && (forall id | id in ids :: Id256(id))
            && (forall i, j | 0 <= i < j < |ids| :: ids[i] != ids[j])
    ensures AcceptableFolder(account, capability) <==> Id256(account) && Id256(capability)
  {
    IdentifierIs(account);
    IdentifierIs(capability);
    forall i | 0 <= i < |ids|
      ensures ValidIdentifier(ids[i], 256) <==> Id256(ids[i])
    {
      IdentifierIs(ids[i]);
    }
    hide ValidIdentifier, Id256;
    assert (forall id | id in ids :: Id256(id)) <==> (forall i | 0 <= i < |ids| :: ValidIdentifier(ids[i], 256));
  }

  lemma IdentifierIs(value: string)
    ensures ValidIdentifier(value, 256) <==> Id256(value)
  {
    if Id256(value) {
      assert forall i | 0 <= i < |value| :: value[i] in value;
    } else if ValidIdentifier(value, 256) {
      forall c | c in value
        ensures 32 <= c as int && c as int != 127
      {
        var i :| 0 <= i < |value| && value[i] == c;
        assert !ControlAt(value, i);
      }
      forall i | 0 <= i < |value| - 1
        ensures !(value[i] as int == 194 && 128 <= value[i + 1] as int < 160)
      {
        assert !ControlAt(value, i);
      }
    }
  }

  // The bytes of three small requests: what the two digests are taken of, and the text
  // of a send.
  lemma BytesOfABatch()
    ensures BatchPreimage("bulk_delete", "a", ["b"]) ==
            "feathermail:mcp:bulk_delete:v1" + ("\0\0\0\0\0\0\0\U{1}" + "a") + "\0\0\0\0\0\0\0\U{1}"
            + ("\0\0\0\0\0\0\0\U{1}" + "b")
    ensures Stamp("bulk_delete", "00") == "bulk_delete:v1:00"
  {
    hide BigEndian, Frames;
    OneIs();
    FramesOfOne("b");
  }

  lemma FramesOfOne(value: string)
    ensures Frames([value]) == Frame(value)
  {
    hide Frame;
    assert [value][..0] == [];
    assert Frames([value][..0]) == "";
  }

  lemma BytesOfAFolder()
    ensures FolderPreimage("a", "b") ==
            "feathermail:mcp:delete_folder:v1" + ("\0\0\0\0\0\0\0\U{1}" + "a") + ("\0\0\0\0\0\0\0\U{1}" + "b")
    ensures Stamp("delete_folder", "00") == "delete_folder:v1:00"
  {
    OneIs();
    hide BigEndian;
  }

  lemma BytesOfASend()
    ensures SendFingerprint("d", 7) == "send:d:7"
  {
  }

  lemma OneIs()
    ensures BigEndian(1, 8) == "\0\0\0\0\0\0\0\U{1}"
  {
    assert BigEndian(0, 4) == "\0\0\0\0";
    assert BigEndian(0, 7) == "\0\0\0\0\0\0\0";
  }

  // The check on neighbouring pairs of the sorted ids.
  method AnyRepeated(ids: seq<string>) returns (r: bool)
    requires Sorted(ids, TextLe)
    ensures r <==> !Distinct(ids)
  {
    var i := 1;
    while i < |ids|
      invariant forall k | 0 <= k < i - 1 && k + 1 < |ids| :: ids[k] != ids[k + 1]
    {
      if ids[i - 1] == ids[i] {
        return true;
      }
      i := i + 1;
    }
    StrictlySorted(ids);
    return false;
  }

  // The digest fed with one framed part after another.
  method FeedParts(head: string, ids: seq<string>) returns (fed: string)
    ensures fed == head + Frames(ids)
  {
    fed := head;
    for i := 0 to |ids|
      invariant fed == head + Frames(ids[..i])
    {
      assert ids[..i + 1][..i] == ids[..i];
      fed := fed + Frame(ids[i]);
    }
    assert ids[..|ids|] == ids;
  }

  // bulk_high_risk_fingerprint: None is its InvalidArgument error.
  method ComputeBatchFingerprint(digest: string -> string, capability: string, account: string, threadIds: seq<string>)
    returns (r: Option<(string, nat)>)
    ensures r.Some? <==> AcceptableBatch(capability, account, threadIds)
    ensures r.Some? ==> r.value == (BatchFingerprint(digest, capability, account, threadIds), |threadIds|)
  {
    if !ValidIdentifier(account, MAX_TARGET_ID_BYTES) || threadIds == [] || |threadIds| > MAX_BATCH_TARGETS {
      return None;
    }
    if exists i | 0 <= i < |threadIds| :: !ValidIdentifier(threadIds[i], MAX_TARGET_ID_BYTES) {
      return None;
    }
    var ids := Sort(threadIds, TextLe);
    SortedCopy(threadIds);
    var repeated := AnyRepeated(ids);
    if repeated || !BatchCapability(capability) {
      return None;
    }
    var fed := Domain(capability);
    fed := fed + Frame(account);
    fed := fed + BigEndian(|ids|, 8);
    fed := FeedParts(fed, ids);
    return Some((Stamp(capability, digest(fed)), |threadIds|));
  }

  lemma SortedCopy(ids: seq<string>)
    ensures Sorted(Sort(ids, TextLe), TextLe)
    ensures Distinct(ids) <==> Distinct(Sort(ids, TextLe))
  {
    TextOrderTotal();
    SortSorts(ids, TextLe);
    if Distinct(ids) {
      DistinctByMultiset(ids, Sort(ids, TextLe));
    }
    if Distinct(Sort(ids, TextLe)) {
      DistinctByMultiset(Sort(ids, TextLe), ids);
    }
  }

  // folder_high_risk_fingerprint for its one capability.
  method ComputeFolderFingerprint(digest: string -> string, account: string, folder: string)
    returns (r: Option<string>)
    ensures r.Some? <==> AcceptableFolder(account, folder)
    ensures r.Some? ==> r.value == FolderFingerprint(digest, account, folder)
  {
    if !ValidIdentifier(account, MAX_TARGET_ID_BYTES) || !ValidIdentifier(folder, MAX_TARGET_ID_BYTES) {
      return None;
    }
    var fed := Domain(DELETE_FOLDER);
    fed := fed + Frame(account);
    fed := fed + Frame(folder);
    return Some(Stamp(DELETE_FOLDER, digest(fed)));
  }

  lemma {:induction false} StrictlySorted(ids: seq<string>)
    requires Sorted(ids, TextLe)
    requires forall k | 0 <= k < |ids| - 1 :: ids[k] != ids[k + 1]
    ensures Distinct(ids)
  {
    forall i, j | 0 <= i < j < |ids|
      ensures ids[i] != ids[j]
    {
      // ids[i] <= ids[i+1] <= ids[j]; equality at the ends forces ids[i] == ids[i+1].
      if i + 1 < j {
        assert TextLe(ids[i], ids[i + 1]) && TextLe(ids[i + 1], ids[j]);
      }
      TextLeTotal(ids[i], ids[i + 1]);
    }
  }

  // ---- the encoding is unambiguous ----

  lemma {:induction false} BigEndianInjective(m: nat, n: nat, width: nat)
    requires m < Capacity(width) && n < Capacity(width)
    requires BigEndian(m, width) == BigEndian(n, width)
    ensures m == n
  {
    if width > 0 {
      var a, b := BigEndian(m / 256, width - 1), BigEndian(n / 256, width - 1);
      assert BigEndian(m, width)[..width - 1] == a && BigEndian(n, width)[..width - 1] == b;
      assert BigEndian(m, width)[width - 1] == (m % 256) as char;
      assert BigEndian(n, width)[width - 1] == (n % 256) as char;
      BigEndianInjective(m / 256, n / 256, width - 1);
    }
  }

  lemma EightBytesSuffice()
    ensures Capacity(8) == 0x1_0000_0000_0000_0000
  {
    assert Capacity(4) == 0x1_0000_0000;
  }

  lemma FrameSplits(a: string, x: string, b: string, y: string)
    requires |a| < Capacity(8) && |b| < Capacity(8)
    requires Frame(a) + x == Frame(b) + y
    ensures a == b && x == y
  {
    var s, t := Frame(a) + x, Frame(b) + y;
    assert s[..8] == BigEndian(|a|, 8) && t[..8] == BigEndian(|b|, 8);
    BigEndianInjective(|a|, |b|, 8);
    assert s[8..8 + |a|] == a && t[8..8 + |b|] == b;
    assert s[8 + |a|..] == x && t[8 + |b|..] == y;
  }

  lemma {:induction false} FramesFront(values: seq<string>)
    requires values != []
    ensures Frames(values) == Frame(values[0]) + Frames(values[1..])
  {
    hide Frame;
    var n := |values| - 1;
    if n == 0 {
      assert values[..0] == [] && values[1..] == [];
    } else {
      var front, last := values[..n], Frame(values[n]);
      FramesFront(front);
      assert values[1..][..n - 1] == front[1..];
      assert Frames(values[1..]) == Frames(front[1..]) + last;
      assert Frame(values[0]) + (Frames(front[1..]) + last) == (Frame(values[0]) + Frames(front[1..])) + last;
    }
  }

  lemma {:induction false} FramesInjective(a: seq<string>, b: seq<string>)
    requires forall i | 0 <= i < |a| :: |a[i]| < Capacity(8)
    requires forall i | 0 <= i < |b| :: |b[i]| < Capacity(8)
    requires |a| == |b| && Frames(a) == Frames(b)
    ensures a == b
  {
    if a != [] {
      FramesFront(a);
      FramesFront(b);
      FrameSplits(a[0], Frames(a[1..]), b[0], Frames(b[1..]));
      FramesInjective(a[1..], b[1..]);
    }
  }

  ghost predicate Supported(capability: string) {
    BatchCapability(capability) || capability == DELETE_FOLDER
  }

  // The domain separators of the three capabilities differ within their common length.
  lemma DomainSplits(c: string, x: string, d: string, y: string)
    requires Supported(c) && Supported(d)
    requires Domain(c) + x == Domain(d) + y
    ensures c == d && x == y
  {
    var s, t := Domain(c) + x, Domain(d) + y;
    assert s[16] == c[0] && t[16] == d[0];
    assert s[21] == c[5] && t[21] == d[5];
    assert s[|Domain(c)|..] == x && t[|Domain(d)|..] == y;
  }

  lemma StampSplits(c: string, x: string, d: string, y: string)
    requires Supported(c) && Supported(d)
    requires Stamp(c, x) == Stamp(d, y)
    ensures c == d && x == y
  {
    var s, t := Stamp(c, x), Stamp(d, y);
    assert s[0] == c[0] && t[0] == d[0];
    assert s[5] == c[5] && t[5] == d[5];
    assert s[|c| + 4..] == x && t[|d| + 4..] == y;
  }

  ghost predicate SameTargets(a: seq<string>, b: seq<string>) {
    forall x :: x in a <==> x in b
  }

  lemma SameTargetsSameOrder(a: seq<string>, b: seq<string>)
    requires Distinct(a) && Distinct(b) && SameTargets(a, b)
    ensures Sort(a, TextLe) == Sort(b, TextLe)
  {
    SameMembersSameMultiset(a, b);
    TextOrderTotal();
    SortSorts(a, TextLe);
    SortSorts(b, TextLe);
    SortedUnique(Sort(a, TextLe), Sort(b, TextLe), TextLe);
  }

  // Two accepted batches have one hash input exactly when capability, account
  // and set of targets agree.
  lemma BatchPreimageBinding(c: string, account: string, ids: seq<string>, d: string, account': string,
                             ids': seq<string>)
    requires AcceptableBatch(c, account, ids) && AcceptableBatch(d, account', ids')
    ensures BatchPreimage(c, account, Sort(ids, TextLe)) == BatchPreimage(d, account', Sort(ids', TextLe))
            <==> c == d && account == account' && SameTargets(ids, ids')
  {
    var s, t := Sort(ids, TextLe), Sort(ids', TextLe);
    SortMembers(ids, TextLe);
    SortMembers(ids', TextLe);
    if c == d && account == account' && SameTargets(ids, ids') {
      SameTargetsSameOrder(ids, ids');
    }
    if BatchPreimage(c, account, s) == BatchPreimage(d, account', t) {
      assert forall i | 0 <= i < |s| :: s[i] in ids;
      assert forall i | 0 <= i < |t| :: t[i] in ids';
      EightBytesSuffice();
      BatchPreimageSplits(c, account, s, d, account', t);
    }
  }

  lemma BatchPreimageSplits(c: string, account: string, s: seq<string>, d: string, account': string, t: seq<string>)
    requires BatchCapability(c) && BatchCapability(d)
    requires |account| < Capacity(8) && |account'| < Capacity(8) && |s| < Capacity(8) && |t| < Capacity(8)
    requires forall i | 0 <= i < |s| :: |s[i]| < Capacity(8)
    requires forall i | 0 <= i < |t| :: |t[i]| < Capacity(8)
    requires BatchPreimage(c, account, s) == BatchPreimage(d, account', t)
    ensures c == d && account == account' && s == t
  {
    PreimageShape(c, account, s);
    PreimageShape(d, account', t);
    DomainSplits(c, Frame(account) + CountedFrames(s), d, Frame(account') + CountedFrames(t));
    FrameSplits(account, CountedFrames(s), account', CountedFrames(t));
    CountedFramesInjective(s, t);
  }

  ghost function CountedFrames(ids: seq<string>): string {
    BigEndian(|ids|, 8) + Frames(ids)
  }

  lemma PreimageShape(c: string, account: string, ids: seq<string>)
    ensures BatchPreimage(c, account, ids) == Domain(c) + (Frame(account) + CountedFrames(ids))
  {
    var d, f, n, x := Domain(c), Frame(account), BigEndian(|ids|, 8), Frames(ids);
    assert ((d + f) + n) + x == d + (f + (n + x));
  }

  lemma CountedFramesInjective(s: seq<string>, t: seq<string>)
    requires |s| < Capacity(8) && |t| < Capacity(8)
    requires forall i | 0 <= i < |s| :: |s[i]| < Capacity(8)
    requires forall i | 0 <= i < |t| :: |t[i]| < Capacity(8)
    requires CountedFrames(s) == CountedFrames(t)
    ensures s == t
  {
    assert CountedFrames(s)[..8] == BigEndian(|s|, 8) && CountedFrames(t)[..8] == BigEndian(|t|, 8);
    BigEndianInjective(|s|, |t|, 8);
    assert CountedFrames(s)[8..] == Frames(s) && CountedFrames(t)[8..] == Frames(t);
    FramesInjective(s, t);
  }

  lemma FolderPreimageBinding(account: string, folder: string, account': string, folder': string)
    requires AcceptableFolder(account, folder) && AcceptableFolder(account', folder')
    ensures FolderPreimage(account, folder) == FolderPreimage(account', folder')
            <==> account == account' && folder == folder'
  {
    if FolderPreimage(account, folder) == FolderPreimage(account', folder') {
      var d := Domain(DELETE_FOLDER);
      assert FolderPreimage(account, folder) == d + (Frame(account) + Frame(folder));
      assert FolderPreimage(account', folder') == d + (Frame(account') + Frame(folder'));
      DomainSplits(DELETE_FOLDER, Frame(account) + Frame(folder), DELETE_FOLDER, Frame(account') + Frame(folder'));
      EightBytesSuffice();
      FrameSplits(account, Frame(folder), account', Frame(folder'));
      FrameSplits(folder, "", folder', "");
    }
  }

  // No hash input is shared between a batch and a folder deletion.
  lemma ShapesNeverMeet(c: string, account: string, ids: seq<string>, account': string, folder: string)
    requires BatchCapability(c)
    ensures BatchPreimage(c, account, ids) != FolderPreimage(account', folder)
  {
    var s, t := BatchPreimage(c, account, ids), FolderPreimage(account', folder);
    assert s[16] == 'b' && t[16] == 'd';
  }

  ghost predicate CollisionFree(digest: string -> string) {
    forall x, y :: digest(x) == digest(y) ==> x == y
  }

  // The stored texts: equal exactly for the same capability, account and targets.
  lemma BatchFingerprintBinding(digest: string -> string, c: string, account: string, ids: seq<string>, d: string,
                                account': string, ids': seq<string>)
    requires CollisionFree(digest)
    requires AcceptableBatch(c, account, ids) && AcceptableBatch(d, account', ids')
    ensures BatchFingerprint(digest, c, account, ids) == BatchFingerprint(digest, d, account', ids')
            <==> c == d && account == account' && SameTargets(ids, ids')
  {
    BatchPreimageBinding(c, account, ids, d, account', ids');
    var p, q := BatchPreimage(c, account, Sort(ids, TextLe)), BatchPreimage(d, account', Sort(ids', TextLe));
    if BatchFingerprint(digest, c, account, ids) == BatchFingerprint(digest, d, account', ids') {
      StampSplits(c, digest(p), d, digest(q));
    }
  }

  // A batch, a folder deletion and a send never share a stored text.
  lemma FingerprintShapesDisjoint(digest: string -> string, c: string, account: string, ids: seq<string>,
                                  account': string, folder: string, draft: string, revision: int)
    requires BatchCapability(c)
    ensures BatchFingerprint(digest, c, account, ids) != FolderFingerprint(digest, account', folder)
    ensures SendFingerprint(draft, revision) != BatchFingerprint(digest, c, account, ids)
    ensures SendFingerprint(draft, revision) != FolderFingerprint(digest, account', folder)
  {
    assert BatchFingerprint(digest, c, account, ids)[0] == 'b';
    assert FolderFingerprint(digest, account', folder)[0] == 'd';
    assert SendFingerprint(draft, revision)[0] == 's';
  }

  // A send approval names one draft at one revision, whatever characters the
  // draft id contains.
  lemma SendFingerprintInjective(draft: string, revision: int, draft': string, revision': int)
    ensures SendFingerprint(draft, revision) == SendFingerprint(draft', revision')
            <==> draft == draft' && revision == revision'
  {
    var s, t := SendFingerprint(draft, revision), SendFingerprint(draft', revision');
    var r, r' := Decimal.Render(revision), Decimal.Render(revision');
    if s == t {
      Decimal.LastColon("send:", draft, r, draft', r');
      Decimal.RenderInjective(revision, revision');
    }
  }
}
