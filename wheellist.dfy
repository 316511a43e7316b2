/** The wheel list: the `ModuleWheelBase` modules found on the current parts,
    ordered by the title of their part, and the selection kept only while
    the selected part is still among them. */
module WheelList {
  import opened Host
  import opened Text

  /** The wheel bases of the parts, in part order: for every non-null part,
      its modules implementing `ModuleWheelBase`. */
  function DiscoveredWheelBases(parts: seq<Option<Part>>): (r: seq<PartModule>)
    ensures forall b :: b in r <==>
              b.kind == Some(WheelBase) && exists p :: Some(p) in parts && Some(b) in p.modules
  {
    if parts == [] then []
    else
      var init, last := parts[..|parts| - 1], parts[|parts| - 1];
      assert forall x :: x in parts <==> x in init || x == last by {
        assert parts == init + [last];
      }
      DiscoveredWheelBases(init) +
      (if last.Some? then ModulesImplementing(last.value.modules, WheelBase) else [])
  }

  /** The bases attached to a part, in order. */
  function WithPart(bases: seq<PartModule>): (r: seq<PartModule>)
    ensures forall b :: b in r <==> b in bases && b.part.Some?
    ensures forall i :: 0 <= i < |r| ==> r[i].part.Some?
  {
    if bases == [] then []
    else
      var init, last := bases[..|bases| - 1], bases[|bases| - 1];
      assert forall x :: x in bases <==> x in init || x == last by {
        assert bases == init + [last];
      }
      WithPart(init) + (if last.part.Some? then [last] else [])
  }

  /** The sort key of a base: the title of its part's info, else the part's
      own name; null when neither is there. */
  function TitleOf(b: PartModule): Option<string> {
    if b.part.None? then None
    else if b.part.value.partInfo.Some? then Some(b.part.value.partInfo.value.title)
    else b.part.value.name
  }

  /** The key order: null first, then strings in ascending order. */
  predicate KeyLe(a: Option<string>, b: Option<string>) {
    a.None? || (b.Some? && !StrLt(b.value, a.value))
  }

  lemma KeyLeTotal(a: Option<string>, b: Option<string>)
    ensures KeyLe(a, b) || KeyLe(b, a)
  {
    if a.Some? && b.Some? && StrLt(a.value, b.value) && StrLt(b.value, a.value) {
      StrLtTrans(a.value, b.value, a.value);
      StrLtIrreflexive(a.value);
    }
  }

  lemma KeyLeTrans(a: Option<string>, b: Option<string>, c: Option<string>)
    requires KeyLe(a, b) && KeyLe(b, c)
    ensures KeyLe(a, c)
  {
    if a.Some? && StrLt(c.value, a.value) {
      StrLtTotal(c.value, b.value);
      if StrLt(b.value, c.value) {
        StrLtTrans(b.value, c.value, a.value);
      }
    }
  }

  predicate SortedByTitle(s: seq<PartModule>) {
    forall i, j :: 0 <= i < j < |s| ==> KeyLe(TitleOf(s[i]), TitleOf(s[j]))
  }

  /** Inserts `b` after every element whose key is not above its own. */
  function InsertByTitle(b: PartModule, s: seq<PartModule>): (r: seq<PartModule>)
    requires SortedByTitle(s)
    ensures SortedByTitle(r)
    ensures multiset(r) == multiset(s) + multiset{b}
  {
    if s == [] then [b]
    else
      var init, last := s[..|s| - 1], s[|s| - 1];
      assert s == init + [last];
      if KeyLe(TitleOf(last), TitleOf(b)) then
        forall i | 0 <= i < |s| ensures KeyLe(TitleOf(s[i]), TitleOf(b)) {
          if i < |s| - 1 { KeyLeTrans(TitleOf(s[i]), TitleOf(last), TitleOf(b)); }
        }
        s + [b]
      else
        KeyLeTotal(TitleOf(last), TitleOf(b));
        var rest := InsertByTitle(b, init);
        forall i | 0 <= i < |rest| ensures KeyLe(TitleOf(rest[i]), TitleOf(last)) {
          assert rest[i] in multiset(rest);
          if rest[i] != b {
            assert rest[i] in multiset(init);
            var k :| 0 <= k < |init| && init[k] == rest[i];
          }
        }
        rest + [last]
  }

  /** `OrderBy` on the title: the bases in ascending key order. */
  function SortByTitle(s: seq<PartModule>): (r: seq<PartModule>)
    ensures SortedByTitle(r)
    ensures multiset(r) == multiset(s)
  {
    if s == [] then []
    else
      var init := s[..|s| - 1];
      assert s == init + [s[|s| - 1]];
      InsertByTitle(s[|s| - 1], SortByTitle(init))
  }

  /** Whether the base sits on the part with the given id. */
  predicate OnPart(b: PartModule, id: uint32) {
    b.part.Some? && b.part.value.persistentId == id
  }

  /** The selection after a refresh: reset to 0 when the selected part no
      longer carries a listed wheel base, kept otherwise. */
  function SelectionAfterRefresh(selected: uint32, bases: seq<PartModule>): (r: uint32)
    ensures r == selected || r == 0
    ensures r != 0 ==> exists b :: b in bases && OnPart(b, r)
    ensures (exists b :: b in bases && OnPart(b, selected)) ==> r == selected
  {
    if selected != 0 && !(exists b :: b in bases && OnPart(b, selected)) then 0 else selected
  }

  /** A second refresh over the same list keeps the selection as it is. */
  lemma SelectionAfterRefreshStable(selected: uint32, bases: seq<PartModule>)
    ensures SelectionAfterRefresh(SelectionAfterRefresh(selected, bases), bases) ==
            SelectionAfterRefresh(selected, bases)
  {
  }

  /** The list a refresh builds holds exactly the wheel bases with a part
      found on the non-null parts, each as often as discovered, in key order. */
  lemma RefreshedList(parts: seq<Option<Part>>)
    ensures var r := SortByTitle(WithPart(DiscoveredWheelBases(parts)));
            && SortedByTitle(r)
            && multiset(r) == multiset(WithPart(DiscoveredWheelBases(parts)))
            && (forall i :: 0 <= i < |r| ==> r[i].part.Some?)
            && (forall b :: b in r <==>
                  b.part.Some? && b.kind == Some(WheelBase) &&
                  exists p :: Some(p) in parts && Some(b) in p.modules)
  {
    var w := WithPart(DiscoveredWheelBases(parts));
    var r := SortByTitle(w);
    forall b ensures b in r <==> b in w {
      assert b in r <==> b in multiset(r);
      assert b in w <==> b in multiset(w);
    }
    forall i | 0 <= i < |r| ensures r[i].part.Some? {
      assert r[i] in r;
    }
  }
}
