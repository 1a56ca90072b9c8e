/**
 * The user panel: its `init` and the translation listener interface. The
 * panel's elements that carry an `sc_addr` attribute are abstracted as a
 * sequence of (address, text) pairs in document order.
 */
module UserPanel {
  import opened Wrappers

  /** An element carrying an `sc_addr` attribute, with its displayed text. */
  datatype Labelled = Labelled(addr: string, text: string)

  const UserMarker: string := "user::"
  const SessionMarker: string := "session::"

  // ---------------------------------------------------------------------------
  // First-occurrence removal (`String.prototype.replace` with a string pattern and "")

  predicate OccursAt(s: string, p: string, i: int) {
    0 <= i && i + |p| <= |s| && s[i..i + |p|] == p
  }

  /** The first occurrence of `p` in `s` at or after `from`. */
  function IndexFrom(s: string, p: string, from: nat): (r: Option<nat>)
    requires from <= |s| + 1
    ensures r.Some? ==> from <= r.value && OccursAt(s, p, r.value)
    ensures r.Some? ==> forall j :: from <= j < r.value ==> !OccursAt(s, p, j)
    ensures r.None? ==> forall j :: from <= j ==> !OccursAt(s, p, j)
    decreases |s| + 1 - from
  {
    if from + |p| > |s| then None
    else if s[from..from + |p|] == p then Some(from)
    else IndexFrom(s, p, from + 1)
  }

  /** The first occurrence of `p` in `s`, as `indexOf` finds it. */
  function IndexOf(s: string, p: string): (r: Option<nat>)
    ensures r.Some? ==> OccursAt(s, p, r.value) && forall j :: 0 <= j < r.value ==> !OccursAt(s, p, j)
    ensures r.None? ==> forall j :: !OccursAt(s, p, j)
  {
    IndexFrom(s, p, 0)
  }

  /**
   * `s.replace(p, '')`: drops the first occurrence of `p` and keeps every
   * other character; reinserting `p` where it was gives `s` back.
   */
  function RemoveFirst(s: string, p: string): (r: string)
    ensures (forall j :: !OccursAt(s, p, j)) ==> r == s
    ensures (exists j :: OccursAt(s, p, j)) ==>
      |r| == |s| - |p| &&
      exists i :: OccursAt(s, p, i) && (forall j :: 0 <= j < i ==> !OccursAt(s, p, j)) && r[..i] + p + r[i..] == s
  {
    match IndexOf(s, p)
    case None => s
    case Some(i) =>
      var r := s[..i] + s[i + |p|..];
      assert r[..i] == s[..i] && r[i..] == s[i + |p|..];
      assert s[..i] + s[i..i + |p|] + s[i + |p|..] == s;
      r
  }

  /**
   * The label cleanup: the first `user::` is removed, then the first
   * `session::`. A cleaned label is never longer than the name, and is the
   * name itself when neither marker occurs.
   */
  function Cleanup(name: string): (r: string)
    ensures |r| <= |name|
    ensures (forall j :: !OccursAt(name, UserMarker, j)) && (forall j :: !OccursAt(name, SessionMarker, j)) ==>
      r == name
  {
    RemoveFirst(RemoveFirst(name, UserMarker), SessionMarker)
  }

  /** A leading `user::` is removed and any later `user::` stays: only the first occurrence goes. */
  lemma LeadingUserMarkerOnly(rest: string)
    ensures Cleanup(UserMarker + rest) == RemoveFirst(rest, SessionMarker)
  {
    var name := UserMarker + rest;
    assert OccursAt(name, UserMarker, 0);
    assert name[..0] + name[|UserMarker|..] == rest;
  }

  /** When `p` cannot start inside `x`, removing its first occurrence from `x + y` leaves `x` alone. */
  lemma {:induction false} RemoveFirstAfterPrefix(x: string, y: string, p: string)
    requires forall j :: 0 <= j < |x| ==> !OccursAt(x + y, p, j)
    ensures RemoveFirst(x + y, p) == x + RemoveFirst(y, p)
  {
    var s := x + y;
    forall j | 0 <= j
      ensures OccursAt(s, p, j + |x|) <==> OccursAt(y, p, j)
    {
      if j + |p| <= |y| {
        assert s[j + |x|..j + |x| + |p|] == y[j..j + |p|];
      }
    }
    match IndexOf(y, p)
    case None =>
      assert forall j :: !OccursAt(s, p, j) by {
        forall j ensures !OccursAt(s, p, j) {
          if j >= |x| {
            assert !OccursAt(y, p, j - |x|);
          }
        }
      }
    case Some(i) =>
      assert OccursAt(s, p, i + |x|);
      var k := IndexOf(s, p).value;
      assert k >= |x|;
      assert OccursAt(y, p, k - |x|);
      assert k == i + |x|;
      assert s[..k] + s[k + |p|..] == x + (y[..i] + y[i + |p|..]);
  }

  /**
   * Only the first `user::` goes: of two leading markers the second stays,
   * and the rest loses only its first `session::`.
   */
  lemma {:induction false} CleanupKeepsSecondUserMarker(rest: string)
    ensures Cleanup(UserMarker + UserMarker + rest) == UserMarker + RemoveFirst(rest, SessionMarker)
  {
    var tail := UserMarker + rest;
    assert UserMarker + UserMarker + rest == UserMarker + tail;
    LeadingUserMarkerOnly(tail);
    SessionNotInsideUser(rest);
    RemoveFirstAfterPrefix(UserMarker, rest, SessionMarker);
  }

  /** No `session::` can start inside a leading `user::`. */
  lemma SessionNotInsideUser(rest: string)
    ensures forall j :: 0 <= j < |UserMarker| ==> !OccursAt(UserMarker + rest, SessionMarker, j)
  {
    var t := UserMarker + rest;
    assert t[0] == 'u' && t[1] == 's' && t[2] == 'e' && t[3] == 'r' && t[4] == ':' && t[5] == ':';
    forall j | 0 <= j < |UserMarker|
      ensures !OccursAt(t, SessionMarker, j)
    {
      var m := if j == 1 then 2 else 0;
      if j + |SessionMarker| <= |t| {
        var w := t[j..j + |SessionMarker|];
        assert w[m] == t[j + m];
        assert w[m] != SessionMarker[m];
      }
    }
  }

  // ---------------------------------------------------------------------------
  // Translation listener interface

  /** `namesMap[addr]` is truthy: present and not the empty string. */
  predicate HasName(names: map<string, string>, addr: string) {
    addr in names && names[addr] != ""
  }

  /** The text one element shows after `updateTranslation`. */
  function TranslatedText(e: Labelled, names: map<string, string>): string {
    if HasName(names, e.addr) then Cleanup(names[e.addr]) else e.text
  }

  /**
   * `updateTranslation`: the same elements in the same order with the same
   * addresses; a named element shows its cleaned name, any other keeps its text.
   */
  function UpdateTranslation(els: seq<Labelled>, names: map<string, string>): (r: seq<Labelled>)
    ensures |r| == |els|
    ensures forall i :: 0 <= i < |els| ==> r[i].addr == els[i].addr
    ensures forall i :: 0 <= i < |els| && HasName(names, els[i].addr) ==> r[i].text == Cleanup(names[els[i].addr])
    ensures forall i :: 0 <= i < |els| && !HasName(names, els[i].addr) ==> r[i] == els[i]
    decreases |els|
  {
    if |els| == 0 then []
    else [els[0].(text := TranslatedText(els[0], names))] + UpdateTranslation(els[1..], names)
  }

  /** Applying the same names twice changes nothing more: the text comes from the name, not the old text. */
  lemma UpdateTranslationIdempotent(els: seq<Labelled>, names: map<string, string>)
    ensures UpdateTranslation(UpdateTranslation(els, names), names) == UpdateTranslation(els, names)
  {
    var once := UpdateTranslation(els, names);
    var twice := UpdateTranslation(once, names);
    assert forall i :: 0 <= i < |els| ==> twice[i] == once[i];
  }

  /** An empty names map leaves every element as it was. */
  lemma UpdateWithoutNamesIsIdentity(els: seq<Labelled>)
    ensures UpdateTranslation(els, map[]) == els
  {
  }

  /** `getObjectsToTranslate`: one address per element, in element order, duplicates kept. */
  method GetObjectsToTranslate(els: seq<Labelled>) returns (items: seq<string>)
    ensures |items| == |els|
    ensures forall i :: 0 <= i < |els| ==> items[i] == els[i].addr
  {
    items := [];
    var i := 0;
    while i < |els|
      invariant 0 <= i <= |els|
      invariant |items| == i
      invariant forall k :: 0 <= k < i ==> items[k] == els[k].addr
    {
      items := items + [els[i].addr];
      i := i + 1;
    }
  }

  // ---------------------------------------------------------------------------
  // init

  /** An element that may or may not carry an `sc_addr` attribute. */
  datatype Element = Element(scAddr: Option<string>, text: string)

  /** The panel's stored parameters and its user-name and user-language elements. */
  datatype Panel = Panel(
    isAuthenticated: bool,
    userScAddr: string,
    langModeScAddr: string,
    userName: Element,
    userLang: Element)

  datatype Params = Params(isAuthenticated: bool, scAddr: string, currentLang: string)

  /**
   * `init`: the three parameters are always stored; only an authenticated
   * user gets the name and language elements set to the two addresses.
   */
  function Init(p: Panel, params: Params): (p': Panel)
    ensures p'.isAuthenticated == params.isAuthenticated
    ensures p'.userScAddr == params.scAddr && p'.langModeScAddr == params.currentLang
    ensures params.isAuthenticated ==>
      p'.userName == Element(Some(params.scAddr), params.scAddr) &&
      p'.userLang == Element(Some(params.currentLang), params.currentLang)
    ensures !params.isAuthenticated ==> p'.userName == p.userName && p'.userLang == p.userLang
  {
    var stored := p.(isAuthenticated := params.isAuthenticated, userScAddr := params.scAddr,
                     langModeScAddr := params.currentLang);
    if params.isAuthenticated then
      stored.(userName := Element(Some(params.scAddr), params.scAddr),
              userLang := Element(Some(params.currentLang), params.currentLang))
    else stored
  }

  /** The two elements among the panel's `[sc_addr]` elements, in document order. */
  function Labels(p: Panel): seq<Labelled> {
    (match p.userName.scAddr case Some(a) => [Labelled(a, p.userName.text)] case None => [])
    + (match p.userLang.scAddr case Some(a) => [Labelled(a, p.userLang.text)] case None => [])
  }

  /**
   * After an authenticated `init`, the panel asks to translate the user and
   * the language; a later translation shows the cleaned name of each one
   * that has a name, and leaves the other showing its address.
   */
  lemma AuthenticatedInitThenTranslate(p: Panel, params: Params, names: map<string, string>)
    requires params.isAuthenticated
    ensures Labels(Init(p, params)) == [Labelled(params.scAddr, params.scAddr), Labelled(params.currentLang, params.currentLang)]
    ensures HasName(names, params.scAddr) ==>
      UpdateTranslation(Labels(Init(p, params)), names)[0].text == Cleanup(names[params.scAddr])
    ensures !HasName(names, params.scAddr) ==>
      UpdateTranslation(Labels(Init(p, params)), names)[0].text == params.scAddr
    ensures HasName(names, params.currentLang) ==>
      UpdateTranslation(Labels(Init(p, params)), names)[1].text == Cleanup(names[params.currentLang])
    ensures !HasName(names, params.currentLang) ==>
      UpdateTranslation(Labels(Init(p, params)), names)[1].text == params.currentLang
  {
  }
}
