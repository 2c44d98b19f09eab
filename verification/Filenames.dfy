/**
 File names of uploads: the display name that `sanitize_display_name` cleans, and the download header
 of section 4.3 of RFC 6266. Names are sequences of code points.
 */
module Filenames {
  import opened Wrappers
  import opened PercentCoding

  const DISPLAY_NAME_MAX: nat := 200
  const EXTENSION_MAX: nat := 16

  const SPACE: nat := 0x20
  const DOT: nat := 0x2E
  const SLASH: nat := 0x2F
  const BACKSLASH: nat := 0x5C
  const UNDERSCORE: nat := 0x5F
  const ZWNJ: nat := 0x200C
  const ZWJ: nat := 0x200D

  /** The Unicode tables: space separators, the dropped categories, NFC and the ASCII fold. */
  datatype Unicode = Unicode(
    isSpace: nat -> bool,
    isDropped: nat -> bool,
    nfc: Text -> Text,
    fold: Text -> Text)

  /** Printable ASCII stays, with the plain space as its one space separator; a lone surrogate is dropped. */
  ghost predicate Standard(u: Unicode) {
    && u.isSpace(SPACE)
    && (forall c :: 0x20 <= c <= 0x7E ==> !u.isDropped(c) && (u.isSpace(c) ==> c == SPACE))
    && forall c :: !IsScalar(c) ==> u.isDropped(c)
  }

  // -- the cleaning ------------------------------------------------------------------------------------

  predicate IsJoiner(c: nat) {
    c == ZWNJ || c == ZWJ
  }

  predicate Drops(u: Unicode, c: nat) {
    !IsJoiner(c) && u.isDropped(c)
  }

  /** Drop what never belongs in a name, and turn every space separator into a plain space. */
  function Visible(u: Unicode, s: Text): Text {
    if s == [] then []
    else (if Drops(u, s[0]) then [] else [if u.isSpace(s[0]) then SPACE else s[0]]) + Visible(u, s[1..])
  }

  /** The part behind the last separator, `/` or `\`. */
  function Basename(s: Text): Text
    decreases |s|
  {
    if s == [] then []
    else
      var last := s[|s| - 1];
      if last == SLASH || last == BACKSLASH then [] else Basename(s[..|s| - 1]) + [last]
  }

  predicate IsEdge(c: nat) {
    c == SPACE || c == DOT
  }

  function StripLeft(s: Text): Text {
    if s != [] && IsEdge(s[0]) then StripLeft(s[1..]) else s
  }

  function StripRight(s: Text): Text
    decreases |s|
  {
    if s != [] && IsEdge(s[|s| - 1]) then StripRight(s[..|s| - 1]) else s
  }

  function Strip(s: Text): Text {
    StripRight(StripLeft(s))
  }

  /** The joiner at `i` lacks a visible character on one side. */
  predicate LooseAt(s: Text, i: nat)
    requires i < |s|
  {
    || i == 0 || i + 1 == |s|
    || IsEdge(s[i - 1]) || IsEdge(s[i + 1]) || IsJoiner(s[i - 1]) || IsJoiner(s[i + 1])
  }

  function TightFrom(s: Text, i: nat): (r: Text)
    requires i <= |s|
    ensures |r| <= |s| - i
    decreases |s| - i
  {
    if i == |s| then []
    else (if IsJoiner(s[i]) && LooseAt(s, i) then [] else [s[i]]) + TightFrom(s, i + 1)
  }

  function DropLooseJoiners(s: Text): Text {
    TightFrom(s, 0)
  }

  lemma StripIsShorter(s: Text)
    ensures |StripLeft(s)| <= |s| && |StripRight(s)| <= |s|
    ensures |StripLeft(s)| == |s| ==> StripLeft(s) == s
    ensures |StripRight(s)| == |s| ==> StripRight(s) == s
    decreases |s|
  {
    if s != [] {
      StripIsShorter(s[1..]);
      StripIsShorter(s[..|s| - 1]);
    }
  }

  predicate NothingLooseFrom(s: Text, i: nat) {
    forall k :: i <= k < |s| && IsJoiner(s[k]) ==> !LooseAt(s, k)
  }

  /** A pass that keeps the length found nothing loose. */
  lemma {:induction false} SameLengthIsTight(s: Text, i: nat)
    requires i <= |s| && |TightFrom(s, i)| == |s| - i
    ensures NothingLooseFrom(s, i)
    decreases |s| - i
  {
    if i < |s| {
      assert !(IsJoiner(s[i]) && LooseAt(s, i));
      SameLengthIsTight(s, i + 1);
    }
  }

  lemma {:induction false} NothingLoose(s: Text, i: nat)
    requires i <= |s| && NothingLooseFrom(s, i)
    ensures TightFrom(s, i) == s[i..]
    decreases |s| - i
  {
    if i < |s| {
      NothingLoose(s, i + 1);
      assert s[i..] == [s[i]] + s[i + 1..];
    }
  }

  lemma TightIsShorter(s: Text)
    ensures |DropLooseJoiners(s)| == |s| ==> DropLooseJoiners(s) == s && NothingLooseFrom(s, 0)
  {
    if |DropLooseJoiners(s)| == |s| {
      SameLengthIsTight(s, 0);
      NothingLoose(s, 0);
    }
  }

  /** One round of trimming. */
  function Trimmed(s: Text): (r: Text)
    ensures |r| <= |s| && (|r| == |s| ==> r == s)
  {
    StripIsShorter(s);
    StripIsShorter(StripLeft(s));
    TightIsShorter(Strip(s));
    DropLooseJoiners(Strip(s))
  }

  /** Strip and drop joiners until nothing changes. */
  function Trim(s: Text): Text
    decreases |s|
  {
    if Trimmed(s) == s then s else Trim(Trimmed(s))
  }

  /** The index of the dot that starts the extension; leading dots start none. */
  function ExtensionAt(s: Text): (r: Option<nat>)
    ensures r.Some? ==> 0 < r.value < |s| && s[r.value] == DOT
  {
    ExtensionBefore(s, |s|)
  }

  function ExtensionBefore(s: Text, n: nat): (r: Option<nat>)
    requires n <= |s|
    ensures r.Some? ==> 0 < r.value < n && s[r.value] == DOT
  {
    if n == 0 then None
    else if s[n - 1] == DOT then (if exists k :: 0 <= k < n - 1 && s[k] != DOT then Some(n - 1) else None)
    else ExtensionBefore(s, n - 1)
  }

  /** Cut to `limit` and keep a short extension. */
  function Cap(s: Text, limit: nat): (r: Text)
    requires limit >= EXTENSION_MAX
    ensures |r| <= limit && (|s| <= limit ==> r == s) && (|s| >= 1 && limit >= 1 ==> |r| >= 1)
  {
    if |s| <= limit then s
    else
      match ExtensionAt(s)
      case Some(dot) =>
        if |s| - dot > EXTENSION_MAX then s[..limit] else s[..limit - (|s| - dot)] + s[dot..]
      case None => s[..limit]
  }

  function Cleaned(u: Unicode, filename: Text): Text {
    Trim(Cap(Trim(Basename(Visible(u, u.nfc(filename)))), DISPLAY_NAME_MAX))
  }

  function SanitizeDisplayName(u: Unicode, filename: Text, default: Text): Text {
    var name := Cleaned(u, filename);
    if name != [] then name else default
  }

  // -- what a display name is ---------------------------------------------------------------------------

  predicate IsNameChar(u: Unicode, c: nat) {
    && !Drops(u, c) && (u.isSpace(c) ==> c == SPACE)
    && c != SLASH && c != BACKSLASH
  }

  /** No space or dot at an edge, and each joiner between two characters that are no space, dot or joiner. */
  predicate IsTrimmed(s: Text) {
    && (s != [] ==> s[0] !in [0x20, 0x2E] && s[|s| - 1] !in [0x20, 0x2E])
    && forall i :: 0 <= i < |s| && s[i] in [0x200C, 0x200D] ==>
         && 0 < i < |s| - 1
         && s[i - 1] !in [0x20, 0x2E, 0x200C, 0x200D] && s[i + 1] !in [0x20, 0x2E, 0x200C, 0x200D]
  }

  lemma TrimmedMeans(s: Text)
    ensures IsTrimmed(s) <==> (s != [] ==> !IsEdge(s[0]) && !IsEdge(s[|s| - 1])) && NothingLooseFrom(s, 0)
  {
  }

  ghost predicate IsDisplayName(u: Unicode, s: Text) {
    && 1 <= |s| <= DISPLAY_NAME_MAX
    && (forall i :: 0 <= i < |s| ==> IsNameChar(u, s[i]))
    && IsTrimmed(s)
  }

  lemma LettersAreDisplayName(u: Unicode, s: Text)
    requires Standard(u) && 1 <= |s| <= DISPLAY_NAME_MAX
    requires forall i :: 0 <= i < |s| ==> 0x61 <= s[i] <= 0x7A
    ensures IsDisplayName(u, s)
  {
  }

  /** The names the callers fall back to are display names. */
  lemma DefaultsAreDisplayNames(u: Unicode)
    requires Standard(u)
    ensures IsDisplayName(u, Points("upload")) && IsDisplayName(u, Points("download"))
  {
    LettersAreDisplayName(u, Points("upload"));
    LettersAreDisplayName(u, Points("download"));
  }

  ghost predicate CharsIn(r: Text, s: Text) {
    forall c :: c in r ==> c in s
  }

  lemma {:induction false} StripKeepsChars(s: Text)
    ensures CharsIn(StripLeft(s), s) && CharsIn(StripRight(s), s)
    ensures StripLeft(s) != [] ==> !IsEdge(StripLeft(s)[0]) && StripLeft(s)[|StripLeft(s)| - 1] == s[|s| - 1]
    ensures StripRight(s) != [] ==> !IsEdge(StripRight(s)[|StripRight(s)| - 1]) && StripRight(s)[0] == s[0]
    decreases |s|
  {
    if s != [] {
      StripKeepsChars(s[1..]);
      StripKeepsChars(s[..|s| - 1]);
    }
  }

  lemma {:induction false} TightKeepsChars(s: Text, i: nat)
    requires i <= |s|
    ensures CharsIn(TightFrom(s, i), s)
    decreases |s| - i
  {
    if i < |s| {
      TightKeepsChars(s, i + 1);
    }
  }

  /** The fixed points of one round are exactly the trimmed names. */
  lemma TrimmedIsFixpoint(s: Text)
    ensures Trimmed(s) == s <==> IsTrimmed(s)
  {
    StripKeepsChars(s);
    StripKeepsChars(StripLeft(s));
    StripIsShorter(s);
    StripIsShorter(StripLeft(s));
    TightIsShorter(Strip(s));
    TrimmedMeans(s);
    if IsTrimmed(s) {
      assert Strip(s) == s;
      NothingLoose(s, 0);
    }
  }

  /** Trimming ends in a trimmed name over the characters it was given. */
  lemma {:induction false} TrimTrims(s: Text)
    ensures IsTrimmed(Trim(s)) && CharsIn(Trim(s), s) && |Trim(s)| <= |s|
    ensures IsTrimmed(s) ==> Trim(s) == s
    decreases |s|
  {
    TrimmedIsFixpoint(s);
    if Trimmed(s) != s {
      TrimTrims(Trimmed(s));
      StripKeepsChars(s);
      StripKeepsChars(StripLeft(s));
      TightKeepsChars(Strip(s), 0);
    }
  }

  /** The characters that trimming never takes: all but spaces, dots and joiners. */
  function Solid(s: Text): Text {
    if s == [] then []
    else (if IsEdge(s[0]) || IsJoiner(s[0]) then [] else [s[0]]) + Solid(s[1..])
  }

  lemma {:induction false} SolidJoins(s: Text, t: Text)
    ensures Solid(s + t) == Solid(s) + Solid(t)
  {
    if s == [] {
      assert s + t == t;
    } else {
      assert (s + t)[1..] == s[1..] + t;
      SolidJoins(s[1..], t);
    }
  }

  lemma {:induction false} StripKeepsSolid(s: Text)
    ensures Solid(StripLeft(s)) == Solid(s) && Solid(StripRight(s)) == Solid(s)
    decreases |s|
  {
    if s != [] {
      StripKeepsSolid(s[1..]);
      StripKeepsSolid(s[..|s| - 1]);
      var last := [s[|s| - 1]];
      assert s == s[..|s| - 1] + last;
      SolidJoins(s[..|s| - 1], last);
      if IsEdge(last[0]) {
        assert Solid(last) == [];
      }
    }
  }

  lemma {:induction false} TightKeepsSolid(s: Text, i: nat)
    requires i <= |s|
    ensures Solid(TightFrom(s, i)) == Solid(s[i..])
    decreases |s| - i
  {
    if i < |s| {
      TightKeepsSolid(s, i + 1);
      var rest := TightFrom(s, i + 1);
      assert s[i..] == [s[i]] + s[i + 1..];
      SolidJoins([s[i]], s[i + 1..]);
      if IsJoiner(s[i]) && LooseAt(s, i) {
        assert Solid([s[i]]) == [];
        assert TightFrom(s, i) == rest;
      } else {
        assert TightFrom(s, i) == [s[i]] + rest;
        SolidJoins([s[i]], rest);
      }
    }
  }

  /** Trimming takes nothing but spaces, dots and joiners. */
  lemma {:induction false} TrimKeepsSolid(s: Text)
    ensures Solid(Trim(s)) == Solid(s)
    decreases |s|
  {
    if Trimmed(s) != s {
      TrimKeepsSolid(Trimmed(s));
      StripKeepsSolid(s);
      StripKeepsSolid(StripLeft(s));
      TightKeepsSolid(Strip(s), 0);
      assert Strip(s)[0..] == Strip(s);
    }
  }

  lemma {:induction false} VisibleChars(u: Unicode, s: Text)
    requires Standard(u)
    ensures forall c :: c in Visible(u, s) ==> !Drops(u, c) && (u.isSpace(c) ==> c == SPACE)
    ensures (forall c :: c in s ==> !Drops(u, c) && (u.isSpace(c) ==> c == SPACE)) ==> Visible(u, s) == s
  {
    if s != [] {
      VisibleChars(u, s[1..]);
      assert s == [s[0]] + s[1..];
    }
  }

  /** Character by character: a dropped one leaves nothing, a space becomes plain, any other one stays. */
  lemma {:induction false} VisibleByChar(u: Unicode, s: Text, c: nat)
    ensures Visible(u, s + [c]) == Visible(u, s) + Visible(u, [c])
    ensures !IsJoiner(c) && u.isDropped(c) ==> Visible(u, [c]) == []
    ensures (IsJoiner(c) || !u.isDropped(c)) && u.isSpace(c) ==> Visible(u, [c]) == [0x20]
    ensures (IsJoiner(c) || !u.isDropped(c)) && !u.isSpace(c) ==> Visible(u, [c]) == [c]
  {
    assert [c][1..] == [];
    if s == [] {
      assert s + [c] == [c];
    } else {
      VisibleByChar(u, s[1..], c);
      assert (s + [c])[0] == s[0] && (s + [c])[1..] == s[1..] + [c];
    }
  }

  lemma {:induction false} BasenameChars(s: Text)
    ensures CharsIn(Basename(s), s) && SLASH !in Basename(s) && BACKSLASH !in Basename(s)
    ensures SLASH !in s && BACKSLASH !in s ==> Basename(s) == s
    decreases |s|
  {
    if s != [] {
      BasenameChars(s[..|s| - 1]);
      assert s == s[..|s| - 1] + [s[|s| - 1]];
    }
  }

  predicate IsSeparator(c: nat) {
    c == SLASH || c == BACKSLASH
  }

  /** The part behind the last separator: it ends the name, and no separator stands in it. */
  lemma {:induction false} BasenameIsLastPart(s: Text)
    ensures forall c :: c in Basename(s) ==> !IsSeparator(c)
    ensures exists front: Text :: s == front + Basename(s) && (front != [] ==> IsSeparator(front[|front| - 1]))
    decreases |s|
  {
    if s == [] {
      assert s == [] + Basename(s);
    } else {
      var shorter, last := s[..|s| - 1], s[|s| - 1];
      assert s == shorter + [last];
      BasenameIsLastPart(shorter);
      if IsSeparator(last) {
        assert s == s + Basename(s);
      } else {
        var front: Text :| shorter == front + Basename(shorter) && (front != [] ==> IsSeparator(front[|front| - 1]));
        assert s == front + (Basename(shorter) + [last]);
      }
    }
  }

  /** The dot that starts the extension: the last one, if anything but dots stands in front of it. */
  ghost predicate StartsExtension(s: Text, dot: int) {
    && 0 < dot < |s| && s[dot] == DOT && (forall k :: dot < k < |s| ==> s[k] != DOT)
    && exists k :: 0 <= k < dot && s[k] != DOT
  }

  lemma {:induction false} ExtensionIsLast(s: Text, n: nat)
    requires n <= |s| && forall k :: n <= k < |s| ==> s[k] != DOT
    ensures match ExtensionBefore(s, n)
            case Some(dot) => StartsExtension(s, dot)
            case None => forall dot :: !StartsExtension(s, dot)
  {
    if n > 0 && s[n - 1] != DOT {
      ExtensionIsLast(s, n - 1);
    }
  }

  /** Cutting keeps a short extension and the beginning; a long extension is cut like the rest. */
  lemma {:induction false} CapKeepsExtension(s: Text, limit: nat)
    requires limit >= EXTENSION_MAX && |s| > limit
    ensures |Cap(s, limit)| == limit
    ensures forall dot :: StartsExtension(s, dot) && |s| - dot <= EXTENSION_MAX ==>
              Cap(s, limit) == s[..limit - (|s| - dot)] + s[dot..]
    ensures (forall dot :: StartsExtension(s, dot) ==> |s| - dot > EXTENSION_MAX) ==> Cap(s, limit) == s[..limit]
  {
    ExtensionIsLast(s, |s|);
  }

  lemma CapKeepsChars(s: Text, limit: nat)
    requires limit >= EXTENSION_MAX
    ensures CharsIn(Cap(s, limit), s)
  {
  }

  /**
   The result has 1 to 200 characters, no separator, no dropped character, no space but the plain one,
   no dot or space at an edge and no loose joiner, whatever came in.
   */
  lemma SanitizedIsDisplayName(u: Unicode, filename: Text, default: Text)
    requires Standard(u) && IsDisplayName(u, default)
    ensures IsDisplayName(u, SanitizeDisplayName(u, filename, default))
  {
    var visible := Visible(u, u.nfc(filename));
    var base := Basename(visible);
    VisibleChars(u, u.nfc(filename));
    BasenameChars(visible);
    TrimTrims(base);
    CapKeepsChars(Trim(base), DISPLAY_NAME_MAX);
    TrimTrims(Cap(Trim(base), DISPLAY_NAME_MAX));
    var name := Cleaned(u, filename);
    forall i | 0 <= i < |name| ensures IsNameChar(u, name[i]) {
      assert name[i] in name;
      assert name[i] in base && name[i] in visible;
    }
  }

  /** A display name in normal form comes back unchanged. */
  lemma DisplayNamesAreStable(u: Unicode, name: Text, default: Text)
    requires Standard(u) && IsDisplayName(u, name) && u.nfc(name) == name
    ensures SanitizeDisplayName(u, name, default) == name
  {
    assert forall c :: c in name ==> IsNameChar(u, c);
    VisibleChars(u, name);
    BasenameChars(name);
    TrimTrims(name);
  }

  /** Cleaning twice is cleaning once, as long as the clean name is in normal form. */
  lemma SanitizeIsIdempotent(u: Unicode, filename: Text, default: Text)
    requires Standard(u) && IsDisplayName(u, default)
    requires u.nfc(SanitizeDisplayName(u, filename, default)) == SanitizeDisplayName(u, filename, default)
    ensures var name := SanitizeDisplayName(u, filename, default);
            SanitizeDisplayName(u, name, default) == name
  {
    SanitizedIsDisplayName(u, filename, default);
    DisplayNamesAreStable(u, SanitizeDisplayName(u, filename, default), default);
  }

  // -- the download header ------------------------------------------------------------------------------------

  const QUOTE: nat := 0x22
  const APOSTROPHE: nat := 0x27

  function Points(s: string): Text {
    seq(|s|, i requires 0 <= i < |s| => s[i] as nat)
  }

  predicate IsFallbackChar(c: nat) {
    0x20 <= c <= 0x7E && c !in {QUOTE, BACKSLASH, PERCENT, 0x3B, SLASH}
  }

  function Fallback(s: Text): (r: Text)
    ensures |r| == |s| && forall i :: 0 <= i < |r| ==> IsFallbackChar(r[i])
  {
    seq(|s|, i requires 0 <= i < |s| => if IsFallbackChar(s[i]) then s[i] else UNDERSCORE)
  }

  function AsciiFallback(u: Unicode, name: Text): Text {
    var fallback := Cap(Fallback(u.fold(name)), DISPLAY_NAME_MAX);
    if fallback != [] then fallback else Points("download")
  }

  function HeaderHead(kind: Text, fallback: Text): Text {
    kind + Points("; filename=\"") + fallback + Points("\"; filename*=UTF-8''")
  }

  function ContentDisposition(u: Unicode, kind: Text, filename: Text, default: Text): Text
    requires Standard(u) && IsDisplayName(u, default)
  {
    var name := SanitizeDisplayName(u, filename, default);
    SanitizedIsDisplayName(u, filename, default);
    NameIsScalar(u, name);
    HeaderHead(kind, AsciiFallback(u, name)) + Quote(name)
  }

  lemma NameIsScalar(u: Unicode, name: Text)
    requires Standard(u) && forall i :: 0 <= i < |name| ==> IsNameChar(u, name[i])
    ensures forall i :: 0 <= i < |name| ==> IsScalar(name[i])
  {
    forall i | 0 <= i < |name| ensures IsScalar(name[i]) {
      assert IsNameChar(u, name[i]);
    }
  }

  /** What a client reads behind the last apostrophe: the extended value of `filename*`. */
  function BehindLastApostrophe(s: Text): Text
    decreases |s|
  {
    if s == [] then [] else
      var last := s[|s| - 1];
      if last == APOSTROPHE then [] else BehindLastApostrophe(s[..|s| - 1]) + [last]
  }

  lemma {:induction false} BehindApostropheOf(s: Text, t: Text)
    requires s != [] && s[|s| - 1] == APOSTROPHE && APOSTROPHE !in t
    ensures BehindLastApostrophe(s + t) == t
    decreases |t|
  {
    if t == [] {
      assert s + t == s;
    } else {
      var shorter := t[..|t| - 1];
      assert (s + t)[..|s + t| - 1] == s + shorter;
      BehindApostropheOf(s, shorter);
      assert t == shorter + [t[|t| - 1]];
    }
  }

  ghost predicate IsHeaderChar(c: nat) {
    0x20 <= c <= 0x7E
  }

  /** Every safe printable character stays in its place, and an underscore stands for each other one. */
  lemma FallbackKeepsSafe(s: Text, i: nat)
    requires i < |s|
    ensures Fallback(s)[i] == s[i] || (Fallback(s)[i] == UNDERSCORE && !(0x20 <= s[i] <= 0x7E && s[i] !in [0x22, 0x5C, 0x25, 0x3B, 0x2F]))
    ensures 0x20 <= s[i] <= 0x7E && s[i] !in [0x22, 0x5C, 0x25, 0x3B, 0x2F] ==> Fallback(s)[i] == s[i]
  {
  }

  lemma FallbackIsSafe(u: Unicode, name: Text)
    ensures 1 <= |AsciiFallback(u, name)| <= DISPLAY_NAME_MAX
    ensures forall i :: 0 <= i < |AsciiFallback(u, name)| ==> IsFallbackChar(AsciiFallback(u, name)[i])
  {
    var folded := Fallback(u.fold(name));
    CapKeepsChars(folded, DISPLAY_NAME_MAX);
    var fallback := Cap(folded, DISPLAY_NAME_MAX);
    forall i | 0 <= i < |fallback| ensures IsFallbackChar(fallback[i]) {
      assert fallback[i] in folded;
    }
  }

  ghost predicate IsPrintable(s: Text) {
    forall i :: 0 <= i < |s| ==> IsHeaderChar(s[i])
  }

  lemma HeadIsPrintable(kind: Text, fallback: Text)
    requires IsPrintable(kind) && IsPrintable(fallback)
    ensures IsPrintable(HeaderHead(kind, fallback))
    ensures HeaderHead(kind, fallback)[|HeaderHead(kind, fallback)| - 1] == APOSTROPHE
  {
    var opening, closing := Points("; filename=\""), Points("\"; filename*=UTF-8''");
    assert IsPrintable(opening) && IsPrintable(closing);
    assert closing[|closing| - 1] == APOSTROPHE;
    JoinIsPrintable(kind, opening);
    JoinIsPrintable(kind + opening, fallback);
    JoinIsPrintable(kind + opening + fallback, closing);
  }

  lemma JoinIsPrintable(s: Text, t: Text)
    requires IsPrintable(s) && IsPrintable(t)
    ensures IsPrintable(s + t)
  {
  }

  /** Quoted text may stand in a header and holds no apostrophe. */
  lemma QuotedIsPrintable(text: Text)
    requires forall i :: 0 <= i < |text| ==> IsUnreserved(text[i]) || text[i] == PERCENT
    ensures IsPrintable(text) && APOSTROPHE !in text
  {
  }

  /**
   The header is printable ASCII whatever the name holds, so no name can end it, and the extended value
   decodes to exactly the cleaned name.
   */
  lemma HeaderCarriesName(u: Unicode, kind: Text, filename: Text, default: Text)
    requires Standard(u) && IsDisplayName(u, default)
    requires kind == Points("attachment") || kind == Points("inline")
    ensures IsPrintable(ContentDisposition(u, kind, filename, default))
    ensures Unquote(BehindLastApostrophe(ContentDisposition(u, kind, filename, default)))
            == Some(SanitizeDisplayName(u, filename, default))
  {
    var name := SanitizeDisplayName(u, filename, default);
    SanitizedIsDisplayName(u, filename, default);
    NameIsScalar(u, name);
    FallbackIsSafe(u, name);
    HeadIsPrintable(kind, AsciiFallback(u, name));
    QuoteRoundTrip(name);
    var head := HeaderHead(kind, AsciiFallback(u, name));
    QuotedIsPrintable(Quote(name));
    JoinIsPrintable(head, Quote(name));
    BehindApostropheOf(head, Quote(name));
  }
}
