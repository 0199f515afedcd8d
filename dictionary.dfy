/** The dictionary: entries [link, name offset, code, ...] chained through their first
    cell, newest first, and `find`, which resolves the token in the reader's buffer. */
module Dictionary {
  import opened Cells
  import opened Text

  /** The entry at w is named like the token: strcmp(s, &s[m[w + 1]]) == 0. The reader's
      buffer is the string at offset 0 of the store. */
  predicate NameMatches(m: seq<Cell>, s: seq<byte>, w: int)
    requires |m| == CORESZ && 0 <= w && w + 1 < CORESZ
  {
    CStr(s, m[w + 1]) == CStr(s, 0)
  }

  /** find: from entry w, follow the links and return the first entry whose name equals
      the token. The fuel counts entries visited. None stands for a walk that reads
      outside the arena or the string store, or that has visited CORESZ entries without a
      match: such a walk has come back to an entry it already visited and never stops. */
  function Find(m: seq<Cell>, s: seq<byte>, w: Cell, fuel: nat): (r: Option<Cell>)
    requires |m| == CORESZ
    ensures r.Some? ==> r.value + 1 < CORESZ && m[r.value + 1] < |s| && NameMatches(m, s, r.value)
    decreases fuel
  {
    if fuel == 0 || w + 1 >= CORESZ || m[w + 1] >= |s| then None
    else if CStr(s, m[w + 1]) == CStr(s, 0) then Some(w)
    else Find(m, s, m[w], fuel - 1)
  }

  /** The links from w lead to the sentinel entry at address 1 through strictly smaller
      addresses, every entry on the way has its three cells in the arena, and every
      name offset is inside the store. */
  predicate Walkable(m: seq<Cell>, slen: nat, w: int)
    requires |m| == CORESZ
    decreases w
  {
    1 <= w && w + 2 < CORESZ && m[w + 1] < slen && (w == 1 || (m[w] < w && Walkable(m, slen, m[w])))
  }

  /** The entries on the chain from w, newest first, ending with the sentinel. */
  function Chain(m: seq<Cell>, slen: nat, w: Cell): (es: seq<Cell>)
    requires |m| == CORESZ && Walkable(m, slen, w)
    ensures 1 <= |es| <= w && es[0] == w && es[|es| - 1] == 1
    ensures forall i :: 0 <= i < |es| ==> 1 <= es[i] <= w
    decreases w
  {
    if w == 1 then [1] else [w] + Chain(m, slen, m[w])
  }

  /** The addresses on a chain strictly decrease, so a chain never visits an entry
      twice. */
  lemma {:induction false} ChainDecreases(m: seq<Cell>, slen: nat, w: Cell)
    requires |m| == CORESZ && Walkable(m, slen, w)
    ensures forall i, j :: 0 <= i < j < |Chain(m, slen, w)| ==> Chain(m, slen, w)[i] > Chain(m, slen, w)[j]
    decreases w
  {
    if w != 1 {
      ChainDecreases(m, slen, m[w]);
      var es, rest := Chain(m, slen, w), Chain(m, slen, m[w]);
      assert es == [w] + rest;
      forall i, j | 0 <= i < j < |es|
        ensures es[i] > es[j]
      {
        assert es[j] == rest[j - 1];
        if i > 0 {
          assert es[i] == rest[i - 1];
        }
      }
    }
  }

  /** find returns the sentinel 1 ("not found") exactly when no entry on the chain
      other than the sentinel is named by the token. */
  lemma FindNotFound(m: seq<Cell>, s: seq<byte>, w: Cell, fuel: nat)
    requires |m| == CORESZ && Walkable(m, |s|, w) && m[2] == 0 && fuel >= w
    ensures var r, es := Find(m, s, w, fuel), Chain(m, |s|, w);
      r.Some? &&
      (r.value == 1 <==> forall i :: 0 <= i < |es| && es[i] != 1 ==> !NameMatches(m, s, es[i]))
  {
    var es := Chain(m, |s|, w);
    FindIsFirstNamed(m, s, w, fuel);
    var k := FirstNamed(m, s, es, 0);
    ChainDecreases(m, |s|, w);
    if es[k] == 1 {
      forall i | 0 <= i < |es| && es[i] != 1
        ensures !NameMatches(m, s, es[i])
      {
        assert i < k;
      }
    }
  }

  /** Whether a chain is walkable, and which entries it holds, depends only on the
      cells 2 .. w + 1 (the sentinel's link at 1 is never followed). */
  lemma {:induction false} WalkableFrame(m: seq<Cell>, m': seq<Cell>, slen: nat, w: Cell)
    requires |m| == CORESZ && |m'| == CORESZ && Walkable(m, slen, w)
    requires forall i :: 2 <= i <= w + 1 ==> m'[i] == m[i]
    ensures Walkable(m', slen, w) && Chain(m', slen, w) == Chain(m, slen, w)
    decreases w
  {
    if w != 1 {
      WalkableFrame(m, m', slen, m[w]);
    }
  }

  /** The index of the first entry of es, from i on, whose name is the token, or |es|
      when there is none: the newest such entry when es is a chain. */
  function FirstNamed(m: seq<Cell>, s: seq<byte>, es: seq<Cell>, i: nat): (k: nat)
    requires |m| == CORESZ && i <= |es| && forall j :: 0 <= j < |es| ==> es[j] + 1 < CORESZ
    ensures i <= k <= |es|
    ensures forall j :: i <= j < k ==> !NameMatches(m, s, es[j])
    ensures k < |es| ==> NameMatches(m, s, es[k])
    decreases |es| - i
  {
    if i == |es| || NameMatches(m, s, es[i]) then i else FirstNamed(m, s, es, i + 1)
  }

  /** find agrees with the reference search: on a walkable chain whose sentinel is named
      by the token buffer it stops, and returns the first entry of the chain named by
      the token, so the newest definition of a word shadows the older ones. */
  lemma {:induction false} FindIsFirstNamed(m: seq<Cell>, s: seq<byte>, w: Cell, fuel: nat)
    requires |m| == CORESZ && Walkable(m, |s|, w) && m[2] == 0 && fuel >= w
    ensures var es := Chain(m, |s|, w);
      var k := FirstNamed(m, s, es, 0);
      k < |es| && Find(m, s, w, fuel) == Some(es[k])
    decreases w
  {
    var es := Chain(m, |s|, w);
    if w == 1 || NameMatches(m, s, w) {
      FindHere(m, s, w, fuel);
    } else {
      FindIsFirstNamed(m, s, m[w], fuel - 1);
      FindSkips(m, s, w, fuel);
    }
  }

  /** One step of the walk past an entry whose name is not the token. */
  lemma FindSkips(m: seq<Cell>, s: seq<byte>, w: Cell, fuel: nat)
    requires |m| == CORESZ && Walkable(m, |s|, w) && w != 1 && fuel >= w
    requires !NameMatches(m, s, w)
    requires var rest := Chain(m, |s|, m[w]);
      var k := FirstNamed(m, s, rest, 0);
      k < |rest| && Find(m, s, m[w], fuel - 1) == Some(rest[k])
    ensures var es := Chain(m, |s|, w);
      var k := FirstNamed(m, s, es, 0);
      k < |es| && Find(m, s, w, fuel) == Some(es[k])
  {
    var rest := Chain(m, |s|, m[w]);
    assert Chain(m, |s|, w) == [w] + rest;
    FirstNamedCons(m, s, w, rest);
  }

  /** Putting an entry not named by the token in front moves the first named one back by
      one place. */
  lemma FirstNamedCons(m: seq<Cell>, s: seq<byte>, w: Cell, rest: seq<Cell>)
    requires |m| == CORESZ && w + 1 < CORESZ && !NameMatches(m, s, w)
    requires forall j :: 0 <= j < |rest| ==> rest[j] + 1 < CORESZ
    requires FirstNamed(m, s, rest, 0) < |rest|
    ensures FirstNamed(m, s, [w] + rest, 0) == FirstNamed(m, s, rest, 0) + 1
  {
    FirstNamedShift(m, s, w, rest, 0);
  }

  lemma {:induction false} FirstNamedShift(m: seq<Cell>, s: seq<byte>, w: Cell, rest: seq<Cell>, i: nat)
    requires |m| == CORESZ && w + 1 < CORESZ && i <= |rest|
    requires forall j :: 0 <= j < |rest| ==> rest[j] + 1 < CORESZ
    ensures FirstNamed(m, s, [w] + rest, i + 1) == FirstNamed(m, s, rest, i) + 1
    decreases |rest| - i
  {
    var es := [w] + rest;
    if i < |rest| {
      assert es[i + 1] == rest[i];
      FirstNamedShift(m, s, w, rest, i + 1);
    }
  }

  /** An entry named by the token, the sentinel among them, is found at once: it is the
      first of its chain. */
  lemma FindHere(m: seq<Cell>, s: seq<byte>, w: Cell, fuel: nat)
    requires |m| == CORESZ && Walkable(m, |s|, w) && m[2] == 0 && fuel >= 1
    requires w == 1 || NameMatches(m, s, w)
    ensures var es := Chain(m, |s|, w);
      FirstNamed(m, s, es, 0) == 0 && Find(m, s, w, fuel) == Some(w)
  {
    assert NameMatches(m, s, w);
  }
}
