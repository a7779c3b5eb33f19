/**
 * The tree window of TP2/TP2.py (and its module-level twin TP2.py): the
 * order check, the key-list parser, and the handlers that create a tree,
 * insert a key, delete a key and start over. The engines never refuse a
 * duplicate key; these handlers search first, so a classic tree built
 * through them never holds a key twice.
 *
 * The selected tree type, the order entry, the key-list entry and the key
 * entry are the texts of the widgets, passed in as parameters. Dialogs are
 * left out; each handler's result says which path it took.
 */
module TreeApp {
  import opened Common
  import opened Text
  import Multiway
  import BStar
  import BStarFacts
  import BStarDelete
  import ClassicBTree
  import BStarEngine

  /** The two values of the tree-type radio buttons. */
  const ClassicKind: string := "B-Arbre"
  const StarKind: string := "B-Arbre*"

  // ---- verifier_order ----

  /** The outcome of `verifier_order`, one value per dialog it may show. */
  datatype OrderCheck = Accepted | NoKind | NotANumber | BelowThree | EvenClassic

  /**
   * `verifier_order`: a type must be selected, the stripped order entry must
   * be all digits with value at least 3, and a classic B-tree needs an odd
   * order.
   */
  function CheckOrder(kind: string, orderText: string): (r: OrderCheck)
    ensures r == Accepted ==> kind != [] && ParseInt(orderText).Some? && ParseInt(orderText).value >= 3
    ensures r == Accepted && kind == ClassicKind ==> ParseInt(orderText).value % 2 == 1
    ensures r == NotANumber <==> kind != [] && !IsDigitString(Strip(orderText))
  {
    var val := Strip(orderText);
    if kind == [] then NoKind
    else if !IsDigitString(val) then NotANumber
    else
      ParseDigits(val);
      var order := DigitsValue(val);
      if order < 3 then BelowThree
      else if kind == ClassicKind && order % 2 == 0 then EvenClassic
      else Accepted
  }

  /** An accepted order is one both engines' constructors take. */
  lemma AcceptedOrderBuilds(kind: string, orderText: string)
    requires CheckOrder(kind, orderText) == Accepted
    ensures ClassicBTree.MakeSizes(ParseInt(orderText).value).Ok?
    ensures BStar.MakeBSizes(ParseInt(orderText).value).Ok?
    ensures kind == ClassicKind ==> ClassicBTree.MakeSizes(ParseInt(orderText).value).value.maxKeys == ParseInt(orderText).value - 1
  {
    var v := ParseInt(orderText).value;
    assert v >= 3;
    if kind == ClassicKind {
      assert v % 2 == 1;
      OddHalves(v);
    }
  }

  /** An odd order less one is twice its half. */
  lemma OddHalves(v: int)
    requires v % 2 == 1
    ensures 2 * ((v - 1) / 2) == v - 1
  {
  }

  /**
   * Every written-out order of at least 3, whitespace around it allowed, is
   * accepted, provided a type is selected and a classic tree's order is odd.
   */
  lemma CheckOrderAccepts(kind: string, p: string, n: int, q: string)
    requires kind != [] && n >= 3 && (kind == ClassicKind ==> n % 2 == 1)
    requires AllSpace(p) && AllSpace(q)
    ensures CheckOrder(kind, p + Show(n) + q) == Accepted
    ensures ParseInt(p + Show(n) + q) == Some(n)
  {
    StripPadding(p, Show(n), q);
    ParsePadded(p, n, q);
    ParseDigits(Show(n));
  }

  /** A sign is not a digit: "+5" and "-5" are refused as orders. */
  lemma CheckOrderRefusesSign(kind: string, n: int)
    requires kind != []
    ensures CheckOrder(kind, "+" + Show(n)) == NotANumber
    ensures n < 0 ==> CheckOrder(kind, Show(n)) == NotANumber
  {
    var t := "+" + Show(n);
    assert t[0] == '+' && !IsSpace('+');
    assert Trimmed(t);
    TrimmedStrip(t);
    TrimmedStrip(Show(n));
  }

  // ---- the key list ----

  /** The pieces that are not blank, in order: `[x for x in pieces if x.strip() != ""]`. */
  function NonBlank(pieces: seq<string>): (r: seq<string>)
    ensures |r| <= |pieces|
    ensures forall i :: 0 <= i < |r| ==> Strip(r[i]) != []
  {
    if pieces == [] then []
    else (if Strip(pieces[0]) != [] then [pieces[0]] else []) + NonBlank(pieces[1..])
  }

  /**
   * `[int(x) for x in liste.split(",") if x.strip() != ""]`: every non-blank
   * piece converted, or ValueError (None) for the whole list.
   */
  function ParseKeyList(liste: string): (r: Option<seq<int>>)
    ensures r.Some? ==> |r.value| == |NonBlank(SplitOn(liste, ','))|
  {
    ParseAll(NonBlank(SplitOn(liste, ',')))
  }

  /** The keys a key-list entry stands for: none when the stripped entry is empty. */
  function ListedKeys(listText: string): (r: Option<seq<int>>)
    ensures Strip(listText) == [] ==> r == Some([])
  {
    var liste := Strip(listText);
    if liste == [] then Some([]) else ParseKeyList(liste)
  }

  /** The renderings of the keys, joined by commas, parse back to the keys. */
  lemma KeyListRoundTrip(ks: seq<int>)
    requires ks != []
    ensures ParseKeyList(Join(ShowAll(ks), ',')) == Some(ks)
  {
    var shown := ShowAll(ks);
    ShownPieces(ks);
    SplitJoin(shown, ',');
    NonBlankKeeps(shown);
    ParseShowAll(ks);
  }

  /** Each rendering is free of commas and not blank. */
  lemma ShownPieces(ks: seq<int>)
    ensures forall i :: 0 <= i < |ks| ==> ',' !in ShowAll(ks)[i] && Strip(ShowAll(ks)[i]) != []
  {
    forall i | 0 <= i < |ks|
      ensures ',' !in ShowAll(ks)[i] && Strip(ShowAll(ks)[i]) != []
    {
      ShowToken(ks[i]);
      TrimmedStrip(Show(ks[i]));
    }
  }

  /** Filtering blanks out of a list without blanks keeps it. */
  lemma {:induction false} NonBlankKeeps(pieces: seq<string>)
    requires forall i :: 0 <= i < |pieces| ==> Strip(pieces[i]) != []
    ensures NonBlank(pieces) == pieces
  {
    if pieces != [] {
      NonBlankKeeps(pieces[1..]);
      assert [pieces[0]] + pieces[1..] == pieces;
    }
  }

  /** One unconvertible piece rejects the whole list. */
  lemma KeyListRejects(liste: string, i: nat)
    requires i < |NonBlank(SplitOn(liste, ','))|
    requires ParseInt(NonBlank(SplitOn(liste, ','))[i]).None?
    ensures ParseKeyList(liste) == None
  {
  }

  // ---- the tree the window holds ----

  /** `self.arbre`: no tree yet, or one of the two engines. */
  datatype Engine =
    | NoTree
    | ClassicTree(classic: ClassicBTree.BTree)
    | StarTree(star: BStarEngine.BStarTree)

  /** What a handler did, standing for the dialog it shows or the lack of one. */
  datatype Report =
    | Refused(check: OrderCheck)   // `verifier_order` said no
    | NoTreeYet                    // delete with no tree
    | EmptyKey                     // blank key entry
    | NotAnInteger                 // ValueError caught
    | Present                      // insert of a key already there
    | Absent                       // delete of a key not there
    | Done                         // the tree was built, or the key inserted or deleted

  class TreeWindow {
    var arbre: Engine

    /** The engine object, if any. */
    function Objects(): set<object>
      reads this
    {
      match arbre
      case NoTree => {}
      case ClassicTree(c) => {c}
      case StarTree(t) => {t}
    }

    /**
     * The engine is in the state its constructor establishes and its methods
     * keep; a classic tree's keys are strictly increasing, which the
     * search-before-insert discipline of the handlers keeps true.
     */
    ghost predicate Valid()
      reads this, Objects()
    {
      match arbre
      case NoTree => true
      case ClassicTree(c) => c.Valid() && StrictlySorted(c.Contents())
      case StarTree(t) => t.Valid()
    }

    /** The keys of the tree, in order. */
    function Keys(): seq<int>
      reads this, Objects()
    {
      match arbre
      case NoTree => []
      case ClassicTree(c) => c.Contents()
      case StarTree(t) => t.Contents()
    }

    /** A classic tree whose root is present, so that its methods do not raise. */
    predicate Rooted()
      reads this, Objects()
    {
      arbre.ClassicTree? && arbre.classic.root.Some?
    }

    /** A B* tree of at most two levels whose keys are strictly increasing. */
    ghost predicate StarShallow()
      reads this, Objects()
    {
      arbre.StarTree? && BStarFacts.Shallow(arbre.star.root, arbre.star.sizes) && StrictlySorted(Keys())
    }

    constructor ()
      ensures arbre == NoTree
    {
      arbre := NoTree;
    }

    /**
     * The search and its normalisation: with the B* type selected the result
     * is unpacked as a pair, which raises TypeError on the classic engine's
     * None; otherwise the classic None and the B* `(None, -1)` both mean
     * absent. With no tree, `None.search` raises AttributeError.
     */
    method Lookup(kind: string, key: int) returns (r: Outcome<bool>)
      requires Valid()
      ensures arbre.NoTree? ==> r == Raised(AttributeError)
      ensures arbre.ClassicTree? && arbre.classic.root.None? ==> r == Raised(AttributeError)
      ensures Rooted() && (kind != StarKind || key in Keys()) ==> r == Ok(key in Keys())
      ensures Rooted() && kind == StarKind && key !in Keys() ==> r == Raised(TypeError)
      ensures arbre.StarTree? && r.Raised? ==> r.fault == IndexError
      ensures arbre.StarTree? && Multiway.WF(arbre.star.root) && Sorted(Keys()) ==> r == Ok(key in Keys())
    {
      match arbre
      case NoTree =>
        return Raised(AttributeError);
      case ClassicTree(c) =>
        var found := c.Search(key);
        if found.Raised? {
          return Raised(found.fault);
        }
        if kind == StarKind && found.value.None? {
          return Raised(TypeError);
        }
        return Ok(found.value.Some?);
      case StarTree(t) =>
        var found := t.Search(key);
        if found.Raised? {
          return Raised(found.fault);
        }
        return Ok(found.value.Some?);
    }

    /**
     * The trees on which the search-then-insert step is proved to add exactly
     * the key: a classic tree with a root, searched with the classic type
     * selected (or holding the key, so that the B* unpacking succeeds), or a
     * B* tree of at most two levels with strictly increasing keys.
     */
    ghost predicate Insertable(kind: string, key: int)
      reads this, Objects()
    {
      (Rooted() && (kind != StarKind || key in Keys())) || StarShallow()
    }

    /**
     * The classic trees on which the search-then-delete step is proved to
     * remove exactly the key, as in Insertable.
     */
    ghost predicate Removable(kind: string, key: int)
      reads this, Objects()
    {
      Rooted() && (kind != StarKind || key in Keys())
    }

    /**
     * A B* tree of at most two levels with strictly increasing keys whose
     * leaves all hold keys: there the delete as written raises IndexError
     * or removes exactly the key.
     */
    ghost predicate StarRemovable()
      reads this, Objects()
    {
      StarShallow() && BStarDelete.LeavesKeyed(arbre.star.root)
    }

    /**
     * `if not node: self.arbre.insert(cle)` after the search: the key goes in
     * only when the search does not find it. The result says whether it went
     * in.
     */
    method AddIfAbsent(kind: string, key: int) returns (r: Outcome<bool>)
      requires Valid()
      modifies Objects()
      ensures arbre == old(arbre) && Valid()
      ensures old(Insertable(kind, key)) ==>
                r == Ok(key !in old(Keys())) && StrictlySorted(Keys()) &&
                forall x :: x in Keys() <==> x in old(Keys()) || x == key
      ensures old(Rooted()) ==> Rooted()
      ensures r.Ok? && !r.value ==> Keys() == old(Keys())
    {
      var found := Lookup(kind, key);
      if found.Raised? {
        return Raised(found.fault);
      }
      if found.value {
        return Ok(false);
      }
      match arbre {
        case NoTree =>
          return Raised(AttributeError);
        case ClassicTree(c) =>
          var s := c.Contents();
          var o := c.Insert(key);
          InsertAtMembers(s, LowerBound(s, key), key);
          return Returning(o, true);
        case StarTree(t) =>
          var s := t.Contents();
          ghost var shallow := StarShallow();
          if shallow {
            StrictlySortedIsSorted(s);
            InsertStrictlySorted(s, key);
          }
          var o := t.Insert(key);
          if o.Raised? {
            return Raised(o.fault);
          }
          InsertAtMembers(s, LowerBound(s, key), key);
          return Ok(true);
      }
    }

    /**
     * `if node: self.arbre.delete(cle)` after the search: the key is deleted
     * only when the search finds it. The result says whether it was deleted.
     */
    method RemoveIfPresent(kind: string, key: int) returns (r: Outcome<bool>)
      requires Valid()
      modifies Objects()
      ensures arbre == old(arbre) && Valid()
      ensures old(Removable(kind, key)) ==>
                r == Ok(key in old(Keys())) && StrictlySorted(Keys()) && Keys() == Without(old(Keys()), key)
      ensures old(StarRemovable()) ==>
                r == Raised(IndexError)
                || (r == Ok(key in old(Keys())) && StrictlySorted(Keys()) && Keys() == Without(old(Keys()), key))
      ensures r.Ok? && !r.value ==> Keys() == old(Keys())
    {
      if StarShallow() {
        StrictlySortedIsSorted(Keys());
      }
      var found := Lookup(kind, key);
      if found.Raised? {
        return Raised(found.fault);
      }
      if !found.value {
        if key !in Keys() {
          WithoutAbsent(Keys(), key);
        }
        return Ok(false);
      }
      match arbre {
        case NoTree =>
          return Raised(AttributeError);
        case ClassicTree(c) =>
          var o := c.Delete(key);
          return Returning(o, true);
        case StarTree(t) =>
          var o := t.Delete(key);
          return Returning(o, true);
      }
    }

    /** `arbre = BStarTree(order)` or `arbre = bTree(order)`, by the selected type. */
    method Build(kind: string, order: int)
      requires order >= 3
      modifies this
      ensures fresh(Objects()) && Valid() && Keys() == []
      ensures kind == StarKind ==> StarShallow() && arbre.star.sizes.m == order
      ensures kind != StarKind ==> Rooted() && arbre.classic.sizes == ClassicBTree.MakeSizes(order).value
    {
      if kind == StarKind {
        var o := BStarEngine.BStarTree.Create(order);
        var t := o.value;
        arbre := StarTree(t);
      } else {
        var o := ClassicBTree.BTree.Create(order);
        var c := o.value;
        arbre := ClassicTree(c);
      }
    }

    /**
     * `creer_arbre`: after the order check, a new tree of the selected type
     * replaces the old one; then the listed keys go in one by one, each only
     * if the search does not find it. A list with a piece that is not an
     * integer leaves the new tree empty. A new classic tree ends up holding
     * exactly the listed keys, each once.
     */
    method CreerArbre(kind: string, orderText: string, listText: string) returns (r: Outcome<Report>)
      requires Valid()
      modifies this
      ensures Valid()
      ensures CheckOrder(kind, orderText) != Accepted ==> r == Ok(Refused(CheckOrder(kind, orderText))) && arbre == old(arbre)
      ensures CheckOrder(kind, orderText) == Accepted ==>
                fresh(Objects()) && (arbre.StarTree? <==> kind == StarKind) && !arbre.NoTree?
      ensures CheckOrder(kind, orderText) == Accepted && ListedKeys(listText).None? ==>
                r == Ok(NotAnInteger) && Keys() == []
      ensures CheckOrder(kind, orderText) == Accepted && kind != StarKind && ListedKeys(listText).Some? ==>
                r == Ok(Done) && forall x :: x in Keys() <==> x in ListedKeys(listText).value
    {
      var check := CheckOrder(kind, orderText);
      if check != Accepted {
        return Ok(Refused(check));
      }
      var order := ParseInt(orderText).value;
      var liste := Strip(listText);
      Build(kind, order);
      if liste == [] {
        return Ok(Done);
      }
      var keys := ParseKeyList(liste);
      if keys.None? {
        return Ok(NotAnInteger);
      }
      var added := AddAll(kind, keys.value);
      if added.Raised? {
        if added.fault == ValueError {
          return Ok(NotAnInteger);
        }
        return Raised(added.fault);
      }
      return Ok(Done);
    }

    /**
     * The `for cle in cles` loop of `creer_arbre`: each key in turn, inserted
     * only if the search does not find it. On a classic tree with a root and
     * the classic type selected, the tree ends up holding its old keys and
     * the listed ones, each once.
     */
    method AddAll(kind: string, ks: seq<int>) returns (r: Outcome<()>)
      requires Valid()
      modifies Objects()
      ensures arbre == old(arbre) && Valid()
      ensures old(Rooted()) && kind != StarKind ==>
                r.Ok? && Rooted() && forall x :: x in Keys() <==> x in old(Keys()) || x in ks
    {
      ghost var start := Keys();
      var i := 0;
      while i < |ks|
        invariant 0 <= i <= |ks|
        invariant arbre == old(arbre) && Valid()
        invariant old(Rooted()) && kind != StarKind ==>
                    Rooted() && forall x :: x in Keys() <==> x in start || x in ks[..i]
      {
        var added := AddIfAbsent(kind, ks[i]);
        if added.Raised? {
          return Raised(added.fault);
        }
        assert ks[..i + 1] == ks[..i] + [ks[i]];
        i := i + 1;
      }
      assert ks[..i] == ks;
      return Ok(());
    }

    /**
     * `inserer_cle`: after the order check and a non-blank integer key, the
     * tree is created if there is none, and the key goes in only if the
     * search does not find it.
     */
    method InsererCle(kind: string, orderText: string, keyText: string) returns (r: Outcome<Report>)
      requires Valid()
      modifies this, Objects()
      ensures Valid()
      ensures CheckOrder(kind, orderText) != Accepted ==> r == Ok(Refused(CheckOrder(kind, orderText))) && arbre == old(arbre)
      ensures CheckOrder(kind, orderText) == Accepted && Strip(keyText) == [] ==> r == Ok(EmptyKey) && arbre == old(arbre)
      ensures CheckOrder(kind, orderText) == Accepted && Strip(keyText) != [] && ParseInt(keyText).None? ==>
                r == Ok(NotAnInteger) && arbre == old(arbre)
      ensures old(arbre).NoTree? && CheckOrder(kind, orderText) == Accepted && ParseInt(keyText).Some? ==>
                fresh(Objects()) && (arbre.StarTree? <==> kind == StarKind)
      ensures !old(arbre).NoTree? ==> arbre == old(arbre)
      ensures CheckOrder(kind, orderText) == Accepted && ParseInt(keyText).Some? &&
              (old(arbre).NoTree? || old(Insertable(kind, ParseInt(keyText).value))) ==>
                var k := ParseInt(keyText).value;
                r == Ok(if k in old(Keys()) then Present else Done) && StrictlySorted(Keys()) &&
                forall x :: x in Keys() <==> x in old(Keys()) || x == k
    {
      var check := CheckOrder(kind, orderText);
      if check != Accepted {
        return Ok(Refused(check));
      }
      var cle := Strip(keyText);
      if cle == [] {
        return Ok(EmptyKey);
      }
      var parsed := ParseInt(cle);
      TrimmedStrip(cle);
      if parsed.None? {
        return Ok(NotAnInteger);
      }
      var key := parsed.value;
      if arbre.NoTree? {
        Build(kind, ParseInt(orderText).value);
      }
      var added := AddIfAbsent(kind, key);
      if added.Raised? {
        if added.fault == ValueError {
          return Ok(NotAnInteger);
        }
        return Raised(added.fault);
      }
      return Ok(if added.value then Done else Present);
    }

    /**
     * `supprimer_cle`: with a tree and a non-blank integer key, the key is
     * deleted only if the search finds it.
     */
    method SupprimerCle(kind: string, keyText: string) returns (r: Outcome<Report>)
      requires Valid()
      modifies Objects()
      ensures arbre == old(arbre) && Valid()
      ensures arbre.NoTree? ==> r == Ok(NoTreeYet)
      ensures !arbre.NoTree? && Strip(keyText) == [] ==> r == Ok(EmptyKey) && Keys() == old(Keys())
      ensures !arbre.NoTree? && Strip(keyText) != [] && ParseInt(keyText).None? ==> r == Ok(NotAnInteger) && Keys() == old(Keys())
      ensures ParseInt(keyText).Some? && old(Removable(kind, ParseInt(keyText).value)) ==>
                var k := ParseInt(keyText).value;
                r == Ok(if k in old(Keys()) then Done else Absent) && StrictlySorted(Keys()) &&
                Keys() == Without(old(Keys()), k)
      ensures ParseInt(keyText).Some? && old(StarRemovable()) ==>
                var k := ParseInt(keyText).value;
                r == Raised(IndexError)
                || (r == Ok(if k in old(Keys()) then Done else Absent) && StrictlySorted(Keys()) &&
                    Keys() == Without(old(Keys()), k))
    {
      if arbre.NoTree? {
        return Ok(NoTreeYet);
      }
      var cle := Strip(keyText);
      if cle == [] {
        return Ok(EmptyKey);
      }
      var parsed := ParseInt(cle);
      TrimmedStrip(cle);
      if parsed.None? {
        return Ok(NotAnInteger);
      }
      var removed := RemoveIfPresent(kind, parsed.value);
      if removed.Raised? {
        if removed.fault == ValueError {
          return Ok(NotAnInteger);
        }
        return Raised(removed.fault);
      }
      return Ok(if removed.value then Done else Absent);
    }

    /** `rechercher_cle`: with a tree and a non-blank integer key, whether the search finds it. */
    method RechercherCle(kind: string, keyText: string) returns (r: Outcome<Report>)
      requires Valid()
      ensures arbre.NoTree? ==> r == Ok(NoTreeYet)
      ensures !arbre.NoTree? && Strip(keyText) == [] ==> r == Ok(EmptyKey)
      ensures !arbre.NoTree? && Strip(keyText) != [] && ParseInt(keyText).None? ==> r == Ok(NotAnInteger)
      ensures ParseInt(keyText).Some? && Insertable(kind, ParseInt(keyText).value) ==>
                r == Ok(if ParseInt(keyText).value in Keys() then Present else Absent)
    {
      if arbre.NoTree? {
        return Ok(NoTreeYet);
      }
      var cle := Strip(keyText);
      if cle == [] {
        return Ok(EmptyKey);
      }
      var parsed := ParseInt(cle);
      TrimmedStrip(cle);
      if parsed.None? {
        return Ok(NotAnInteger);
      }
      if StarShallow() {
        StrictlySortedIsSorted(Keys());
      }
      var found := Lookup(kind, parsed.value);
      if found.Raised? {
        if found.fault == ValueError {
          return Ok(NotAnInteger);
        }
        return Raised(found.fault);
      }
      return Ok(if found.value then Present else Absent);
    }

    /** `reinitialiser`: the tree is dropped. */
    method Reinitialiser()
      modifies this
      ensures arbre == NoTree && Keys() == [] && Valid()
    {
      arbre := NoTree;
    }
  }

  lemma InsertAtMembers(s: seq<int>, i: nat, x: int)
    requires i <= |s|
    ensures forall y :: y in InsertAt(s, i, x) <==> y in s || y == x
  {
    var r := InsertAt(s, i, x);
    forall y ensures y in r <==> y in s || y == x {
      assert y in r <==> y in multiset(r);
      assert y in s <==> y in multiset(s);
    }
  }
}
