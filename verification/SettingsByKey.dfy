// The settings one by one (crates/core/src/settings.rs:90-162, 302-455): what each
// starts as, what a patch makes of it and what each text of its row reads as.
module SettingsByKey {
  import opened Wrappers
  import opened SettingsCodec
  import opened SettingsStore
  import Decimal

  // n, or the nearer end of the range.
  ghost predicate Nearest(n: int, least: int, most: int, r: int) {
    least <= r <= most && (if n < least then r == least else if n > most then r == most else r == n)
  }

  // What clamping does to the value of each key.
  ghost predicate Settles(k: Key, v: Value, r: Value) {
    match k
    case UiScalePercent => v.Number? && r.Number? && Nearest(v.n, 100, 200, r.n)
    case CacheLimitBytes => r == if v == Number(0) then Number(2 * 1024 * 1024 * 1024) else v
    case AttachmentCacheLimitBytes => r == if v == Number(0) then Number(2 * 1024 * 1024 * 1024) else v
    case SidebarWidth => v.Number? && r.Number? && Nearest(if v.n == 0 then 300 else v.n, 200, 640, r.n)
    case ListWidth => v.Number? && r.Number? && Nearest(if v.n == 0 then 440 else v.n, 360, 900, r.n)
    case DefaultFolder => r == if v == Id(Some("")) then Id(Some("inbox")) else v
    case AllowedImageDomains => v.Names? && r == Names(NormalizedDomains(v.ids))
    case MarkRead => r == v
    case ConfirmDelete => r == v
    case Theme => r == v
    case Density => r == v
    case NotifyMail => r == v
    case NotifySound => r == v
    case MutedNotificationAccounts => r == v
    case BlockPixels => r == v
    case BlockRemote => r == v
    case ConfirmLinks => r == v
    case PreferPlain => r == v
    case ReduceMotion => r == v
    case DefaultAccount => r == v
    case LastAccount => r == v
    case LastUnified => r == v
    case McpEnabled => r == v
    case LaunchOnStartup => r == v
  }

  // What a patch leaves of each setting the closure asked for.
  lemma ClampSettles(s: Settings, k: Key)
    requires Typed(s)
    ensures Settles(k, s[k], ClampAll(s)[k])
  {
    hide NormalizedDomains;
  }

  // The values that a profile without a settings row has.
  lemma EmptyTableLoads(k: Key)
    ensures Loaded(map[])[k] ==
            match k
            case MarkRead => Named("immediate")
            case ConfirmDelete => On(true)
            case Theme => Named("light")
            case Density => Named("comfortable")
            case UiScalePercent => Number(100)
            case NotifyMail => On(true)
            case NotifySound => On(false)
            case MutedNotificationAccounts => Names([])
            case BlockPixels => On(true)
            case BlockRemote => On(true)
            case AllowedImageDomains => Names([])
            case ConfirmLinks => On(true)
            case PreferPlain => On(false)
            case ReduceMotion => On(false)
            case DefaultAccount => Id(None)
            case DefaultFolder => Id(Some("inbox"))
            case LastAccount => Id(None)
            case LastUnified => On(false)
            case CacheLimitBytes => Number(2 * 1024 * 1024 * 1024)
            case AttachmentCacheLimitBytes => Number(2 * 1024 * 1024 * 1024)
            case McpEnabled => On(false)
            case LaunchOnStartup => On(false)
            case SidebarWidth => Number(300)
            case ListWidth => Number(440)
  {
    NoDomains();
    hide NormalizedDomains;
  }

  lemma NoDomains()
    ensures NormalizedDomains([]) == []
  {
  }

  // An optional sign and digits, and what they say.
  ghost predicate Spells(text: string, n: int) {
    exists digits: string | digits != "" && Decimal.AllDigits(digits) ::
      || (n == Decimal.Value(digits) && (text == digits || text == "+" + digits))
      || (n == -(Decimal.Value(digits) as int) && text == "-" + digits)
  }

  // A number is read from exactly the texts that spell it, within the type's range; a
  // type without negative numbers takes no minus sign.
  lemma ReadsNumberIff(text: string, lo: int, hi: int, n: int)
    requires lo <= 0 <= hi
    ensures ParseInt(text, lo, hi) == Some(n) <==>
              Spells(text, n) && lo <= n <= hi && (lo == 0 ==> text == "" || text[0] != '-')
  {
    hide Decimal.Value;
    if text != "" && text[0] in {'+', '-'} {
      assert text == [text[0]] + text[1..];
    }
    if ParseInt(text, lo, hi) == Some(n) {
      var digits := if text[0] in {'+', '-'} then text[1..] else text;
      assert digits != "" && Decimal.AllDigits(digits);
    }
    if Spells(text, n) {
      var digits: string :| digits != "" && Decimal.AllDigits(digits)
                            && ((n == Decimal.Value(digits) && (text == digits || text == "+" + digits))
                                || (n == -(Decimal.Value(digits) as int) && text == "-" + digits));
      assert Decimal.IsDigit(digits[0]);
      assert ("+" + digits)[1..] == digits && ("-" + digits)[1..] == digits;
    }
  }

  // The names a choice is stored under.
  ghost predicate Offers(k: Key, name: string) {
    match k
    case MarkRead => name in {"immediate", "delay", "manual"}
    case Theme => name in {"light", "dark", "system"}
    case Density => name in {"comfortable", "compact"}
    case _ => false
  }

  lemma ChoiceReads(k: Key, text: string)
    requires k in {MarkRead, Theme, Density}
    ensures Read(map[k := text], k) == if Offers(k, text) then Named(text) else Read(map[], k)
  {
  }

  lemma SwitchReads(k: Key, text: string)
    requires k in {ConfirmDelete, NotifyMail, NotifySound, BlockPixels, BlockRemote, ConfirmLinks, PreferPlain,
                   ReduceMotion, LastUnified, McpEnabled, LaunchOnStartup}
    ensures Read(map[k := text], k) ==
            if text in {"true", "1"} then On(true) else if text in {"false", "0"} then On(false) else Read(map[], k)
  {
  }

  // The widths are i32, the scale u8, the limits u64.
  ghost predicate Readable(k: Key, text: string, n: int) {
    && Spells(text, n)
    && match k
       case UiScalePercent => 0 <= n <= 255 && (text == "" || text[0] != '-')
       case SidebarWidth => -0x8000_0000 <= n <= 0x7fff_ffff
       case ListWidth => -0x8000_0000 <= n <= 0x7fff_ffff
       case _ => 0 <= n <= 0xffff_ffff_ffff_ffff && (text == "" || text[0] != '-')
  }

  lemma NumberReads(k: Key, text: string, n: int)
    requires k in {UiScalePercent, CacheLimitBytes, AttachmentCacheLimitBytes, SidebarWidth, ListWidth}
    ensures Readable(k, text, n) ==> Read(map[k := text], k) == Number(n)
    ensures (forall m: int :: !Readable(k, text, m)) ==> Read(map[k := text], k) == Read(map[], k)
  {
    hide ParseInt, Spells;
    forall m: int
      ensures ParseInt(text, -0x8000_0000, 0x7fff_ffff) == Some(m) <==> Readable(SidebarWidth, text, m)
      ensures ParseInt(text, -0x8000_0000, 0x7fff_ffff) == Some(m) <==> Readable(ListWidth, text, m)
      ensures ParseInt(text, 0, 255) == Some(m) <==> Readable(UiScalePercent, text, m)
      ensures ParseInt(text, 0, 0xffff_ffff_ffff_ffff) == Some(m) <==> Readable(CacheLimitBytes, text, m)
      ensures Readable(AttachmentCacheLimitBytes, text, m) <==> Readable(CacheLimitBytes, text, m)
    {
      ReadsNumberIff(text, -0x8000_0000, 0x7fff_ffff, m);
      ReadsNumberIff(text, 0, 255, m);
      ReadsNumberIff(text, 0, 0xffff_ffff_ffff_ffff, m);
    }
    hide Readable;
    assert forall m: int :: Readable(k, text, m) <==>
             match k
             case UiScalePercent => ParseInt(text, 0, 255) == Some(m)
             case SidebarWidth => ParseInt(text, -0x8000_0000, 0x7fff_ffff) == Some(m)
             case ListWidth => ParseInt(text, -0x8000_0000, 0x7fff_ffff) == Some(m)
             case _ => ParseInt(text, 0, 0xffff_ffff_ffff_ffff) == Some(m);
    var found := match k
                 case UiScalePercent => ParseInt(text, 0, 255)
                 case SidebarWidth => ParseInt(text, -0x8000_0000, 0x7fff_ffff)
                 case ListWidth => ParseInt(text, -0x8000_0000, 0x7fff_ffff)
                 case _ => ParseInt(text, 0, 0xffff_ffff_ffff_ffff);
    assert found.Some? ==> Readable(k, text, found.value);
  }

  // An empty account is none; an empty folder leaves the default.
  lemma PlaceReads(text: string)
    ensures Read(map[DefaultAccount := text], DefaultAccount) == Id(if text == "" then None else Some(text))
    ensures Read(map[LastAccount := text], LastAccount) == Id(if text == "" then None else Some(text))
    ensures Read(map[DefaultFolder := text], DefaultFolder) == Id(Some(if text == "" then "inbox" else text))
  {
  }
}
