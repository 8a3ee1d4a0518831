/**
 * Stage 5 of the normalisation (Grammar.TransformToCNF, Lab5/Lab5/Program.cs:137-176).
 * Every right-hand side other than a single terminal is shortened from the left: while
 * it is longer than two, its first two characters are replaced by a variable. Equal
 * pairs share one variable through the dictionary `newVariables`; a new variable is
 * named by `nextFreeVariable`, which starts at 'Z' and is decremented after each use,
 * and gets the single production made of its pair.
 */
module Binarization {
  import opened CnfTables
  import opened Wrappers

  /**
   * How many names the `char` counter yields before it reaches a surrogate code unit:
   * 'Z' down to '\0' (91 names), then U+FFFF down to U+E000 (8192 names).
   */
  const MintLimit: nat := 8283

  /** The code of `nextFreeVariable` after `n` decrements, with 16-bit wrap-around. */
  function MintCode(n: nat): (code: int)
    requires n < MintLimit
    ensures 0 <= code <= 90 || 0xE000 <= code <= 0xFFFF
    ensures n <= 90 <==> code <= 90
    ensures (code + n - 90) % 0x1_0000 == 0
  {
    if n <= 90 then 90 - n else 0xFFFF - (n - 91)
  }

  /** The `n`-th variable the conversion names (counting from 0). */
  function Minted(n: nat): char
    requires n < MintLimit
  {
    MintCode(n) as char
  }

  /** Every name is used at most once. */
  lemma MintedInjective(i: nat, j: nat)
    requires i < MintLimit && j < MintLimit && Minted(i) == Minted(j)
    ensures i == j
  {
    assert MintCode(i) == Minted(i) as int == Minted(j) as int == MintCode(j);
  }

  /** Names are minted strictly downward, from 'Z' until the wrap-around at '\0'. */
  lemma MintedDownward(i: nat, j: nat)
    requires i < j < MintLimit && (j <= 90 || 91 <= i)
    ensures Minted(j) < Minted(i) && Minted(0) == 'Z'
  {
  }

  /** The decrement count at which `x` is named, or -1 for a character that is never minted. */
  function NameIndex(x: char): (n: int)
    ensures -1 <= n < MintLimit
    ensures 0 <= n ==> Minted(n) == x
    ensures forall m :: 0 <= m < MintLimit && Minted(m) == x ==> m == n
  {
    if x as int <= 90 then 90 - x as int
    else if 0xE000 <= x as int <= 0xFFFF then 0xFFFF - x as int + 91
    else -1
  }

  /**
   * The state of the conversion: the table `cnf`, the dictionary `newVariables` (its keys
   * in insertion order in `pairs`, its entries in `cache`), and `count`, how many times
   * `nextFreeVariable` has been decremented.
   */
  datatype Cnf = Cnf(table: Table, pairs: seq<Rhs>, cache: map<Rhs, char>, count: nat)

  /** `newVariables` maps the `i`-th pair entered to the `i`-th name, and holds only pairs. */
  ghost predicate CacheOk(st: Cnf) {
    && st.count == |st.pairs| <= MintLimit
    && (forall i :: 0 <= i < |st.pairs| ==> st.pairs[i] in st.cache && st.cache[st.pairs[i]] == Minted(i))
    && (forall pair :: pair in st.cache ==> pair in st.pairs && |pair| == 2)
  }

  /** Two pairs of the dictionary never share a variable. */
  lemma CacheInjective(st: Cnf, p: Rhs, q: Rhs)
    requires CacheOk(st) && p in st.cache && q in st.cache && st.cache[p] == st.cache[q]
    ensures p == q
  {
    var i :| 0 <= i < |st.pairs| && st.pairs[i] == p;
    var j :| 0 <= j < |st.pairs| && st.pairs[j] == q;
    MintedInjective(i, j);
  }

  /** The names minted so far. */
  lemma CacheNames(st: Cnf, v: char)
    requires CacheOk(st)
    ensures v in st.cache.Values <==> exists i :: 0 <= i < st.count && v == Minted(i)
  {
    if v in st.cache.Values {
      var p :| p in st.cache && st.cache[p] == v;
      var i :| 0 <= i < |st.pairs| && st.pairs[i] == p;
    }
    if exists i :: 0 <= i < st.count && v == Minted(i) {
      var i :| 0 <= i < st.count && v == Minted(i);
      assert st.cache[st.pairs[i]] == v;
    }
  }

  /**
   * The while loop of :155-165 from the current right-hand side `cur`. It fails only
   * where the counter would reach a surrogate.
   */
  function Pairing(cur: Rhs, st: Cnf): (r: Option<(Rhs, Cnf)>)
    requires st.table.Valid()
    ensures r.Some? ==> r.value.1.table.Valid()
    decreases |cur|
  {
    if |cur| <= 2 then Some((cur, st))
    else
      var pair := cur[..2];
      if pair in st.cache then Pairing([st.cache[pair]] + cur[2..], st)
      else if st.count >= MintLimit then None
      else
        Pairing([Minted(st.count)] + cur[2..], Mint(st, pair))
  }

  /**
   * `newVariables[leftPart] = nextFreeVariable--; cnf[newVariables[leftPart]] = ...`
   * (:161-162): the next name is given to `pair` and gets `pair` as its only production.
   */
  function Mint(st: Cnf, pair: Rhs): (r: Cnf)
    requires st.table.Valid() && st.count < MintLimit
    ensures r.table.Valid() && r.count == st.count + 1 && st.table.keys <= r.table.keys
    ensures r.table.rules == st.table.rules[Minted(st.count) := [pair]]
    ensures r.cache == st.cache[pair := Minted(st.count)] && r.pairs == st.pairs + [pair]
  {
    Cnf(Put(st.table, Minted(st.count), [pair]), st.pairs + [pair], st.cache[pair := Minted(st.count)], st.count + 1)
  }

  /**
   * A right-hand side of at most two characters is left alone; a longer one becomes two
   * characters ending in its last, after at most `|cur| - 2` new names. The conversion
   * fails only when fewer names remain than the right-hand side could need.
   */
  lemma {:induction false} PairingShape(cur: Rhs, st: Cnf)
    requires st.table.Valid()
    ensures |cur| <= 2 ==> Pairing(cur, st) == Some((cur, st))
    ensures Pairing(cur, st).Some? && |cur| > 2 ==>
              |Pairing(cur, st).value.0| == 2 && Pairing(cur, st).value.0[1] == cur[|cur| - 1]
    ensures Pairing(cur, st).Some? ==>
              st.count <= Pairing(cur, st).value.1.count <= st.count + (if |cur| > 2 then |cur| - 2 else 0)
    ensures Pairing(cur, st).None? ==> st.count + |cur| >= MintLimit + 3
    decreases |cur|
  {
    if |cur| > 2 {
      var pair := cur[..2];
      if pair in st.cache {
        PairingShape([st.cache[pair]] + cur[2..], st);
      } else if st.count < MintLimit {
        PairingShape([Minted(st.count)] + cur[2..], Mint(st, pair));
      }
    }
  }

  /** One iteration of the while loop of :152-164. */
  lemma PairingNext(cur: Rhs, st: Cnf)
    requires st.table.Valid() && |cur| > 2
    ensures var pair := cur[..2];
            && (pair in st.cache ==> Pairing(cur, st) == Pairing([st.cache[pair]] + cur[2..], st))
            && (pair !in st.cache && st.count >= MintLimit ==> Pairing(cur, st).None?)
            && (pair !in st.cache && st.count < MintLimit ==>
                  var st1 := Mint(st, pair);
                  pair in st1.cache && Pairing(cur, st) == Pairing([st1.cache[pair]] + cur[2..], st1))
  {
  }

  /** The body of the loop over a key's productions (:148-166). */
  function ConvertRhs(p: Rhs, vt: seq<char>, st: Cnf): Option<(Rhs, Cnf)>
    requires st.table.Valid()
  {
    if |p| == 1 && p[0] in vt then Some((p, st)) else Pairing(p, st)
  }

  /** What the conversion leaves of one right-hand side `p`. */
  predicate RhsConverted(q: Rhs, p: Rhs) {
    && (|p| <= 2 ==> q == p)
    && (|p| > 2 ==> |q| == 2 && q[1] == p[|p| - 1])
  }

  /** `newProductions` for a whole list, position by position. */
  predicate ListConverted(qs: seq<Rhs>, l: seq<Rhs>) {
    |qs| == |l| && forall i :: 0 <= i < |l| ==> RhsConverted(qs[i], l[i])
  }

  /** Every right-hand side has at most two characters. */
  predicate Short(l: seq<Rhs>) {
    forall q :: q in l ==> |q| <= 2
  }

  /** A single terminal is copied verbatim, and no result is longer than two. */
  lemma ConvertRhsShape(p: Rhs, vt: seq<char>, st: Cnf)
    requires st.table.Valid() && ConvertRhs(p, vt, st).Some?
    ensures RhsConverted(ConvertRhs(p, vt, st).value.0, p)
    ensures |ConvertRhs(p, vt, st).value.0| <= 2
    ensures |p| == 1 && p[0] in vt ==> ConvertRhs(p, vt, st).value.0 == p
  {
    PairingShape(p, st);
  }

  /** The first `n` productions of `l` converted, in order (:146-168). */
  function ConvertList(l: seq<Rhs>, n: nat, vt: seq<char>, st: Cnf): (r: Option<(seq<Rhs>, Cnf)>)
    requires n <= |l| && st.table.Valid()
    ensures r.Some? ==> r.value.1.table.Valid()
  {
    if n == 0 then Some(([], st))
    else
      match ConvertList(l, n - 1, vt, st)
      case None => None
      case Some((qs, st1)) =>
        match ConvertRhs(l[n - 1], vt, st1)
        case None => None
        case Some((q, st2)) => Some((qs + [q], st2))
  }

  /** `newProductions` converts the list position by position, and every result is short. */
  lemma {:induction false} ConvertListShape(l: seq<Rhs>, n: nat, vt: seq<char>, st: Cnf)
    requires n <= |l| && st.table.Valid() && ConvertList(l, n, vt, st).Some?
    ensures ListConverted(ConvertList(l, n, vt, st).value.0, l[..n]) && Short(ConvertList(l, n, vt, st).value.0)
  {
    if n > 0 {
      ConvertListShape(l, n - 1, vt, st);
      var (qs, st1) := ConvertList(l, n - 1, vt, st).value;
      ConvertRhsShape(l[n - 1], vt, st1);
      var q := ConvertRhs(l[n - 1], vt, st1).value.0;
      TakeLast(l, n);
      ConvertedSnoc(qs, l[..n - 1], q, l[n - 1]);
    }
  }

  lemma ConvertedSnoc(qs: seq<Rhs>, ps: seq<Rhs>, q: Rhs, p: Rhs)
    requires ListConverted(qs, ps) && Short(qs) && RhsConverted(q, p) && |q| <= 2
    ensures ListConverted(qs + [q], ps + [p]) && Short(qs + [q])
  {
    assert forall i :: 0 <= i < |ps| ==> (qs + [q])[i] == qs[i] && (ps + [p])[i] == ps[i];
  }

  /** The first `n` keys of `P` converted (:143-170); `cnf` starts as a copy of `P`. */
  function ConvertKeys(P: Table, n: nat, vt: seq<char>): (r: Option<Cnf>)
    requires P.Valid() && n <= |P.keys|
    ensures r.Some? ==> r.value.table.Valid()
  {
    if n == 0 then Some(Cnf(P, [], map[], 0))
    else
      match ConvertKeys(P, n - 1, vt)
      case None => None
      case Some(st) =>
        var k := P.keys[n - 1];
        match ConvertList(P.rules[k], |P.rules[k]|, vt, st)
        case None => None
        case Some((qs, st1)) => Some(st1.(table := Put(st1.table, k, qs)))
  }

  /** The table `TransformToCNF` leaves in `P`, with its naming state. */
  function TransformSpec(P: Table, vt: seq<char>): (r: Option<Cnf>)
    requires P.Valid()
    ensures r.Some? ==> r.value.table.Valid()
  {
    ConvertKeys(P, |P.keys|, vt)
  }

  lemma {:induction false} ConvertKeysKeepsKeys(P: Table, n: nat, vt: seq<char>)
    requires P.Valid() && n <= |P.keys| && ConvertKeys(P, n, vt).Some?
    ensures P.keys <= ConvertKeys(P, n, vt).value.table.keys
  {
    if n > 0 {
      ConvertKeysKeepsKeys(P, n - 1, vt);
      var st := ConvertKeys(P, n - 1, vt).value;
      var k := P.keys[n - 1];
      var st1 := ConvertList(P.rules[k], |P.rules[k]|, vt, st).value.1;
      ListKeepsKeys(P.rules[k], |P.rules[k]|, vt, st);
      PrefixTrans(P.keys, st.table.keys, st1.table.keys);
      PrefixTrans(P.keys, st1.table.keys, Put(st1.table, k, ConvertList(P.rules[k], |P.rules[k]|, vt, st).value.0).keys);
    }
  }

  lemma {:induction false} PairingKeepsKeys(cur: Rhs, st: Cnf)
    requires st.table.Valid() && Pairing(cur, st).Some?
    ensures st.table.keys <= Pairing(cur, st).value.1.table.keys
    decreases |cur|
  {
    if |cur| > 2 {
      var pair := cur[..2];
      if pair in st.cache {
        PairingKeepsKeys([st.cache[pair]] + cur[2..], st);
      } else {
        var st1 := Mint(st, pair);
        PairingKeepsKeys([Minted(st.count)] + cur[2..], st1);
        PrefixTrans(st.table.keys, st1.table.keys, Pairing(cur, st).value.1.table.keys);
      }
    }
  }

  lemma {:induction false} ListKeepsKeys(l: seq<Rhs>, n: nat, vt: seq<char>, st: Cnf)
    requires n <= |l| && st.table.Valid() && ConvertList(l, n, vt, st).Some?
    ensures st.table.keys <= ConvertList(l, n, vt, st).value.1.table.keys
  {
    if n > 0 {
      ListKeepsKeys(l, n - 1, vt, st);
      var st1 := ConvertList(l, n - 1, vt, st).value.1;
      if !(|l[n - 1]| == 1 && l[n - 1][0] in vt) {
        PairingKeepsKeys(l[n - 1], st1);
      }
      PrefixTrans(st.table.keys, st1.table.keys, ConvertList(l, n, vt, st).value.1.table.keys);
    }
  }

  /** Entering a new pair under the next name keeps the dictionary consistent. */
  lemma MintKeepsCache(st: Cnf, pair: Rhs)
    requires st.table.Valid() && CacheOk(st) && pair !in st.cache && |pair| == 2 && st.count < MintLimit
    ensures CacheOk(Mint(st, pair))
  {
    var ps := st.pairs + [pair];
    forall i | 0 <= i < |ps| ensures ps[i] in st.cache[pair := Minted(st.count)] {
      if i < |st.pairs| {
        assert ps[i] == st.pairs[i];
      }
    }
  }

  /**
   * The while loop only adds to `newVariables`: an existing pair keeps its variable (it
   * is reused, never renamed).
   */
  lemma {:induction false} PairingCache(cur: Rhs, st: Cnf)
    requires st.table.Valid() && CacheOk(st) && Pairing(cur, st).Some?
    ensures CacheOk(Pairing(cur, st).value.1)
    ensures st.pairs <= Pairing(cur, st).value.1.pairs
    ensures forall pair :: pair in st.cache ==> pair in Pairing(cur, st).value.1.cache
                                                && Pairing(cur, st).value.1.cache[pair] == st.cache[pair]
    decreases |cur|
  {
    if |cur| > 2 {
      var pair := cur[..2];
      if pair in st.cache {
        PairingCache([st.cache[pair]] + cur[2..], st);
      } else {
        var st1 := Mint(st, pair);
        MintKeepsCache(st, pair);
        PairingCache([Minted(st.count)] + cur[2..], st1);
        PrefixTrans(st.pairs, st1.pairs, Pairing(cur, st).value.1.pairs);
      }
    }
  }

  /** The shortened right-hand side starts with a variable of `newVariables`. */
  lemma {:induction false} PairingHead(cur: Rhs, st: Cnf)
    requires st.table.Valid() && CacheOk(st) && Pairing(cur, st).Some? && |cur| > 2
    ensures |Pairing(cur, st).value.0| == 2 && Pairing(cur, st).value.0[0] in Pairing(cur, st).value.1.cache.Values
    decreases |cur|
  {
    PairingShape(cur, st);
    var pair := cur[..2];
    if pair in st.cache {
      var next := [st.cache[pair]] + cur[2..];
      if |next| > 2 {
        PairingHead(next, st);
      } else {
        assert st.cache[pair] in st.cache.Values;
      }
    } else {
      var st1 := Mint(st, pair);
      MintKeepsCache(st, pair);
      var next := [Minted(st.count)] + cur[2..];
      if |next| > 2 {
        PairingHead(next, st1);
      } else {
        assert st1.cache[pair] == Minted(st.count);
      }
    }
  }

  /** The keys of `cnf` are those of `P` and the minted names. */
  ghost predicate KeysOk(st: Cnf, P: Table) {
    st.table.rules.Keys == P.rules.Keys + st.cache.Values
  }

  /** Every list is short, except that of a key of `P` not yet converted, which is still `P`'s. */
  ghost predicate ShortOk(st: Cnf, P: Table, done: seq<char>) {
    forall k :: k in st.table.rules ==>
      Short(st.table.rules[k]) || (k in P.rules && k !in done && st.table.rules[k] == P.rules[k])
  }

  /** A minted name that is not a key of `P` holds exactly its pair. */
  ghost predicate MintedOk(st: Cnf, P: Table) {
    forall pair :: pair in st.cache && st.cache[pair] !in P.rules ==>
      st.cache[pair] in st.table.rules && st.table.rules[st.cache[pair]] == [pair]
  }

  /** A converted key whose name was not minted holds its converted list. */
  ghost predicate DoneOk(st: Cnf, P: Table, done: seq<char>) {
    forall k :: k in done && k in P.rules && k !in st.cache.Values ==>
      k in st.table.rules && ListConverted(st.table.rules[k], P.rules[k])
  }

  /** The shape of `cnf` part way through, after the keys `done` of `P`. */
  ghost predicate TableOk(st: Cnf, P: Table, done: seq<char>) {
    KeysOk(st, P) && ShortOk(st, P, done) && MintedOk(st, P) && DoneOk(st, P, done)
  }

  lemma MintValues(st: Cnf, pair: Rhs)
    requires st.table.Valid() && pair !in st.cache && st.count < MintLimit
    ensures Mint(st, pair).cache.Values == st.cache.Values + {Minted(st.count)}
  {
    var c1 := Mint(st, pair).cache;
    forall x | x in c1.Values ensures x in st.cache.Values + {Minted(st.count)} {
      var p :| p in c1 && c1[p] == x;
      if p != pair {
        assert st.cache[p] == x;
      }
    }
    forall x | x in st.cache.Values ensures x in c1.Values {
      var p :| p in st.cache && st.cache[p] == x;
      assert c1[p] == x;
    }
    assert c1[pair] == Minted(st.count);
  }

  lemma MintKeepsKeys(st: Cnf, P: Table, pair: Rhs)
    requires st.table.Valid() && KeysOk(st, P) && pair !in st.cache && st.count < MintLimit
    ensures KeysOk(Mint(st, pair), P)
  {
    MintValues(st, pair);
  }

  lemma MintKeepsShort(st: Cnf, P: Table, done: seq<char>, pair: Rhs)
    requires st.table.Valid() && ShortOk(st, P, done) && |pair| == 2 && st.count < MintLimit
    ensures ShortOk(Mint(st, pair), P, done)
  {
  }

  lemma MintKeepsMinted(st: Cnf, P: Table, pair: Rhs)
    requires st.table.Valid() && CacheOk(st) && MintedOk(st, P) && pair !in st.cache && st.count < MintLimit
    ensures MintedOk(Mint(st, pair), P)
  {
    var st1 := Mint(st, pair);
    var v := Minted(st.count);
    forall p | p in st1.cache && st1.cache[p] !in P.rules
      ensures st1.cache[p] in st1.table.rules && st1.table.rules[st1.cache[p]] == [p]
    {
      if p != pair {
        var i :| 0 <= i < |st.pairs| && st.pairs[i] == p;
        if st.cache[p] == v {
          MintedInjective(i, st.count);
        }
      }
    }
  }

  lemma MintKeepsDone(st: Cnf, P: Table, done: seq<char>, pair: Rhs)
    requires st.table.Valid() && DoneOk(st, P, done) && pair !in st.cache && st.count < MintLimit
    ensures DoneOk(Mint(st, pair), P, done)
  {
    MintValues(st, pair);
  }

  /** The while loop keeps the shape. */
  lemma {:induction false} PairingKeepsTable(cur: Rhs, st: Cnf, P: Table, done: seq<char>)
    requires st.table.Valid() && CacheOk(st) && TableOk(st, P, done) && Pairing(cur, st).Some?
    ensures TableOk(Pairing(cur, st).value.1, P, done)
    decreases |cur|
  {
    if |cur| > 2 {
      var pair := cur[..2];
      if pair in st.cache {
        PairingKeepsTable([st.cache[pair]] + cur[2..], st, P, done);
      } else {
        MintKeepsCache(st, pair);
        MintKeepsKeys(st, P, pair);
        MintKeepsShort(st, P, done, pair);
        MintKeepsMinted(st, P, pair);
        MintKeepsDone(st, P, done, pair);
        PairingKeepsTable([Minted(st.count)] + cur[2..], Mint(st, pair), P, done);
      }
    }
  }

  /** Converting the first `n` productions of a list keeps the dictionary and the shape. */
  lemma {:induction false} ConvertListKeeps(l: seq<Rhs>, n: nat, vt: seq<char>, st: Cnf, P: Table, done: seq<char>)
    requires n <= |l| && st.table.Valid() && CacheOk(st) && TableOk(st, P, done)
    requires ConvertList(l, n, vt, st).Some?
    ensures CacheOk(ConvertList(l, n, vt, st).value.1)
    ensures TableOk(ConvertList(l, n, vt, st).value.1, P, done)
  {
    if n > 0 {
      ConvertListLast(l, n, vt, st);
      ConvertListKeeps(l, n - 1, vt, st, P, done);
      ConvertRhsKeeps(l[n - 1], vt, ConvertList(l, n - 1, vt, st).value.1, P, done);
    }
  }

  /** A list converted up to `n` was converted up to `n - 1`, and then one more right-hand side. */
  lemma ConvertListLast(l: seq<Rhs>, n: nat, vt: seq<char>, st: Cnf)
    requires 0 < n <= |l| && st.table.Valid() && ConvertList(l, n, vt, st).Some?
    ensures ConvertList(l, n - 1, vt, st).Some?
    ensures var st1 := ConvertList(l, n - 1, vt, st).value.1;
      ConvertRhs(l[n - 1], vt, st1).Some? && ConvertRhs(l[n - 1], vt, st1).value.1 == ConvertList(l, n, vt, st).value.1
  {
  }

  /** Converting one right-hand side keeps the dictionary and the shape. */
  lemma ConvertRhsKeeps(p: Rhs, vt: seq<char>, st: Cnf, P: Table, done: seq<char>)
    requires st.table.Valid() && CacheOk(st) && TableOk(st, P, done) && ConvertRhs(p, vt, st).Some?
    ensures CacheOk(ConvertRhs(p, vt, st).value.1)
    ensures TableOk(ConvertRhs(p, vt, st).value.1, P, done)
  {
    if !(|p| == 1 && p[0] in vt) {
      PairingCache(p, st);
      PairingKeepsTable(p, st, P, done);
    }
  }

  /** `cnf[entry.Key] = newProductions` (:169) converts one more key. */
  lemma PutKeyKeepsTable(st: Cnf, P: Table, done: seq<char>, k: char, qs: seq<Rhs>)
    requires st.table.Valid() && TableOk(st, P, done) && k in P.rules
    requires ListConverted(qs, P.rules[k]) && Short(qs)
    ensures TableOk(st.(table := Put(st.table, k, qs)), P, done + [k])
  {
    var st1 := st.(table := Put(st.table, k, qs));
    forall x | x in st1.table.rules ensures
      Short(st1.table.rules[x]) || (x in P.rules && x !in done + [k] && st1.table.rules[x] == P.rules[x])
    {
      if x != k {
        assert st1.table.rules[x] == st.table.rules[x];
      }
    }
  }

  /** Converting the list of one more key `k` and storing it keeps the dictionary and the shape. */
  lemma KeyStepKeeps(st: Cnf, P: Table, done: seq<char>, k: char, vt: seq<char>)
    requires st.table.Valid() && CacheOk(st) && TableOk(st, P, done) && k in P.rules
    requires ConvertList(P.rules[k], |P.rules[k]|, vt, st).Some?
    ensures var r := ConvertList(P.rules[k], |P.rules[k]|, vt, st).value;
            CacheOk(r.1) && TableOk(r.1.(table := Put(r.1.table, k, r.0)), P, done + [k])
  {
    var l := P.rules[k];
    ConvertListKeeps(l, |l|, vt, st, P, done);
    var r := ConvertList(l, |l|, vt, st).value;
    ConvertListShape(l, |l|, vt, st);
    assert l[..|l|] == l;
    PutKeyKeepsTable(r.1, P, done, k, r.0);
  }

  /** Converting one more key keeps the dictionary and the shape. */
  lemma ConvertKeysStep(P: Table, n: nat, vt: seq<char>)
    requires P.Valid() && 0 < n <= |P.keys| && ConvertKeys(P, n, vt).Some?
    requires CacheOk(ConvertKeys(P, n - 1, vt).value)
    requires TableOk(ConvertKeys(P, n - 1, vt).value, P, P.keys[..n - 1])
    ensures CacheOk(ConvertKeys(P, n, vt).value)
    ensures TableOk(ConvertKeys(P, n, vt).value, P, P.keys[..n])
  {
    var st := ConvertKeys(P, n - 1, vt).value;
    var k := P.keys[n - 1];
    TakeLast(P.keys, n);
    KeyStepKeeps(st, P, P.keys[..n - 1], k, vt);
  }


  /** The conversion of the first `n` keys keeps the dictionary and the shape. */
  lemma {:induction false} ConvertKeysKeeps(P: Table, n: nat, vt: seq<char>)
    requires P.Valid() && n <= |P.keys| && ConvertKeys(P, n, vt).Some?
    ensures CacheOk(ConvertKeys(P, n, vt).value)
    ensures TableOk(ConvertKeys(P, n, vt).value, P, P.keys[..n])
  {
    if n == 0 {
      ConvertKeysStart(P);
    } else {
      ConvertKeysPrev(P, n, vt);
      ConvertKeysKeeps(P, n - 1, vt);
      ConvertKeysStep(P, n, vt);
    }
  }

  /** The conversion starts from a consistent state: `cnf` a copy of `P`, nothing minted. */
  lemma ConvertKeysStart(P: Table)
    requires P.Valid()
    ensures CacheOk(Cnf(P, [], map[], 0)) && TableOk(Cnf(P, [], map[], 0), P, [])
  {
    var st := Cnf(P, [], map[], 0);
    assert st.cache.Values == {};
  }

  /**
   * What `TransformToCNF` leaves: every right-hand side has at most two characters; every
   * key of `P` whose name was not minted holds its converted list (a single terminal
   * verbatim, a short right-hand side unchanged, a long one shortened to two characters
   * ending in its last one); a minted name that is not a key of `P` holds exactly its
   * pair; no other key appears; names are minted downward from 'Z', each for one pair.
   */
  lemma TransformShape(P: Table, vt: seq<char>)
    requires P.Valid() && TransformSpec(P, vt).Some?
    ensures CacheOk(TransformSpec(P, vt).value)
    ensures TransformSpec(P, vt).value.table.rules.Keys == P.rules.Keys + TransformSpec(P, vt).value.cache.Values
    ensures P.keys <= TransformSpec(P, vt).value.table.keys
    ensures forall k :: k in TransformSpec(P, vt).value.table.rules ==> Short(TransformSpec(P, vt).value.table.rules[k])
    ensures forall k :: k in P.rules && k !in TransformSpec(P, vt).value.cache.Values ==>
              ListConverted(TransformSpec(P, vt).value.table.rules[k], P.rules[k])
    ensures forall pair :: pair in TransformSpec(P, vt).value.cache && TransformSpec(P, vt).value.cache[pair] !in P.rules ==>
              TransformSpec(P, vt).value.table.rules[TransformSpec(P, vt).value.cache[pair]] == [pair]
  {
    var st := TransformSpec(P, vt).value;
    ConvertKeysKeeps(P, |P.keys|, vt);
    ConvertKeysKeepsKeys(P, |P.keys|, vt);
    assert P.keys[..|P.keys|] == P.keys;
    forall k | k in st.table.rules ensures Short(st.table.rules[k]) {
      assert k in P.rules ==> k in P.keys;
    }
  }

  /** Once a production cannot be converted, neither can the list. */
  lemma {:induction false} ListNoneStays(l: seq<Rhs>, j: nat, m: nat, vt: seq<char>, st: Cnf)
    requires j <= m <= |l| && st.table.Valid() && ConvertList(l, j, vt, st).None?
    ensures ConvertList(l, m, vt, st).None?
  {
    if m > j {
      ListNoneStays(l, j, m - 1, vt, st);
      ConvertListNone(l, m, vt, st);
    }
  }

  /** Once a key cannot be converted, neither can the table. */
  lemma {:induction false} KeysNoneStays(P: Table, j: nat, m: nat, vt: seq<char>)
    requires P.Valid() && j <= m <= |P.keys| && ConvertKeys(P, j, vt).None?
    ensures ConvertKeys(P, m, vt).None?
  {
    if m > j {
      KeysNoneStays(P, j, m - 1, vt);
      ConvertKeysNone(P, m, vt);
    }
  }

  lemma ConvertListNone(l: seq<Rhs>, m: nat, vt: seq<char>, st: Cnf)
    requires 0 < m <= |l| && st.table.Valid() && ConvertList(l, m - 1, vt, st).None?
    ensures ConvertList(l, m, vt, st).None?
  {
  }

  lemma ConvertKeysPrev(P: Table, m: nat, vt: seq<char>)
    requires P.Valid() && 0 < m <= |P.keys| && ConvertKeys(P, m, vt).Some?
    ensures ConvertKeys(P, m - 1, vt).Some?
  {
  }

  lemma ConvertKeysNone(P: Table, m: nat, vt: seq<char>)
    requires P.Valid() && 0 < m <= |P.keys| && ConvertKeys(P, m - 1, vt).None?
    ensures ConvertKeys(P, m, vt).None?
  {
  }

  /** The list one production further, when it has been converted so far. */
  lemma ConvertListNext(l: seq<Rhs>, j: nat, vt: seq<char>, st0: Cnf)
    requires j < |l| && st0.table.Valid() && ConvertList(l, j, vt, st0).Some?
    ensures var (qs, st) := ConvertList(l, j, vt, st0).value;
            match ConvertRhs(l[j], vt, st)
            case None => ConvertList(l, j + 1, vt, st0).None?
            case Some((q, st2)) => ConvertList(l, j + 1, vt, st0) == Some((qs + [q], st2))
  {
  }

  /** The table one key further, when it has been converted so far. */
  lemma ConvertKeysNext(P: Table, i: nat, vt: seq<char>)
    requires P.Valid() && i < |P.keys| && ConvertKeys(P, i, vt).Some?
    ensures var st := ConvertKeys(P, i, vt).value;
            var k := P.keys[i];
            match ConvertList(P.rules[k], |P.rules[k]|, vt, st)
            case None => ConvertKeys(P, i + 1, vt).None?
            case Some((qs, st1)) => ConvertKeys(P, i + 1, vt) == Some(st1.(table := Put(st1.table, k, qs)))
  {
  }

  /**
   * From `st` to `st'` names are only minted: the dictionary grows at its end, and the
   * entry `x` is `[pair]` for its pair if `x` was minted in between, and unchanged otherwise.
   */
  ghost predicate OnlyMints(st: Cnf, st': Cnf, x: char) {
    && st.count <= st'.count && st.pairs <= st'.pairs && |st'.pairs| == st'.count
    && (x in st.table.rules ==>
          && x in st'.table.rules
          && st'.table.rules[x] ==
               if st.count <= NameIndex(x) < st'.count then [st'.pairs[NameIndex(x)]] else st.table.rules[x])
  }

  lemma MintOnlyMints(st: Cnf, pair: Rhs, x: char)
    requires st.table.Valid() && st.count < MintLimit && |st.pairs| == st.count
    ensures OnlyMints(st, Mint(st, pair), x)
  {
    var st' := Mint(st, pair);
    assert st'.pairs[st.count] == pair;
  }

  lemma OnlyMintsTrans(a: Cnf, b: Cnf, c: Cnf, x: char)
    requires OnlyMints(a, b, x) && OnlyMints(b, c, x)
    ensures OnlyMints(a, c, x)
  {
    PrefixTrans(a.pairs, b.pairs, c.pairs);
    var n := NameIndex(x);
    if a.count <= n < b.count {
      assert c.pairs[n] == b.pairs[n];
    }
  }

  /** The loop of :155-165 only mints. */
  lemma {:induction false} PairingOnlyMints(cur: Rhs, st: Cnf, x: char)
    requires st.table.Valid() && |st.pairs| == st.count && Pairing(cur, st).Some?
    ensures OnlyMints(st, Pairing(cur, st).value.1, x)
    decreases |cur|
  {
    if |cur| > 2 {
      var pair := cur[..2];
      if pair in st.cache {
        PairingOnlyMints([st.cache[pair]] + cur[2..], st, x);
      } else {
        var st' := Mint(st, pair);
        MintOnlyMints(st, pair, x);
        PairingOnlyMints([Minted(st.count)] + cur[2..], st', x);
        OnlyMintsTrans(st, st', Pairing(cur, st).value.1, x);
      }
    }
  }

  /** Converting a list only mints. */
  lemma {:induction false} ConvertListOnlyMints(l: seq<Rhs>, n: nat, vt: seq<char>, st: Cnf, x: char)
    requires n <= |l| && st.table.Valid() && |st.pairs| == st.count && ConvertList(l, n, vt, st).Some?
    ensures OnlyMints(st, ConvertList(l, n, vt, st).value.1, x)
  {
    if n > 0 {
      ConvertListLast(l, n, vt, st);
      ConvertListOnlyMints(l, n - 1, vt, st, x);
      var st1 := ConvertList(l, n - 1, vt, st).value.1;
      if !(|l[n - 1]| == 1 && l[n - 1][0] in vt) {
        PairingOnlyMints(l[n - 1], st1, x);
        OnlyMintsTrans(st, st1, ConvertList(l, n, vt, st).value.1, x);
      }
    }
  }

  /** The counter counts the dictionary's pairs. */
  lemma KeysCount(P: Table, n: nat, vt: seq<char>)
    requires P.Valid() && n <= |P.keys| && ConvertKeys(P, n, vt).Some?
    ensures |ConvertKeys(P, n, vt).value.pairs| == ConvertKeys(P, n, vt).value.count <= MintLimit
  {
    ConvertKeysKeeps(P, n, vt);
  }

  /** The last key of a conversion that succeeded, with the states before and after it, named. */
  lemma ConvertKeysSplit(P: Table, m: nat, vt: seq<char>, s: Cnf) returns (st: Cnf, qs: seq<Rhs>, st1: Cnf)
    requires P.Valid() && 0 < m <= |P.keys| && ConvertKeys(P, m, vt) == Some(s)
    ensures ConvertKeys(P, m - 1, vt) == Some(st) && st.table.Valid() && P.keys[m - 1] in P.rules
    ensures ConvertList(P.rules[P.keys[m - 1]], |P.rules[P.keys[m - 1]]|, vt, st) == Some((qs, st1))
    ensures s == st1.(table := Put(st1.table, P.keys[m - 1], qs))
  {
    ConvertKeysPrev(P, m, vt);
    ConvertKeysNext(P, m - 1, vt);
    st := ConvertKeys(P, m - 1, vt).value;
    var k := P.keys[m - 1];
    qs, st1 := ConvertList(P.rules[k], |P.rules[k]|, vt, st).value.0, ConvertList(P.rules[k], |P.rules[k]|, vt, st).value.1;
  }

  /** Converting key `m - 1`, which is not `x`, only mints as far as `x` is concerned. */
  lemma KeyStepOnlyMints(P: Table, m: nat, vt: seq<char>, x: char)
    requires P.Valid() && 0 < m <= |P.keys| && ConvertKeys(P, m, vt).Some? && P.keys[m - 1] != x
    ensures ConvertKeys(P, m - 1, vt).Some?
    ensures OnlyMints(ConvertKeys(P, m - 1, vt).value, ConvertKeys(P, m, vt).value, x)
  {
    var s := ConvertKeys(P, m, vt).value;
    var st, qs, st1 := ConvertKeysSplit(P, m, vt, s);
    var k := P.keys[m - 1];
    assert |st.pairs| == st.count by {
      KeysCount(P, m - 1, vt);
    }
    ConvertListOnlyMints(P.rules[k], |P.rules[k]|, vt, st, x);
    PutOnlyMints(st1, k, qs, x);
    OnlyMintsTrans(st, st1, s, x);
  }

  /** Storing the list of a key other than `x` only mints as far as `x` is concerned. */
  lemma PutOnlyMints(st: Cnf, k: char, qs: seq<Rhs>, x: char)
    requires st.table.Valid() && |st.pairs| == st.count && k != x
    ensures OnlyMints(st, st.(table := Put(st.table, k, qs)), x)
  {
  }

  /** Converting the keys `a` to `m - 1`, none of which is `x`, only mints as far as `x` is concerned. */
  lemma {:induction false} KeysOnlyMints(P: Table, a: nat, m: nat, vt: seq<char>, x: char)
    requires P.Valid() && a <= m <= |P.keys| && ConvertKeys(P, m, vt).Some?
    requires forall i :: a <= i < m ==> P.keys[i] != x
    ensures ConvertKeys(P, a, vt).Some?
    ensures OnlyMints(ConvertKeys(P, a, vt).value, ConvertKeys(P, m, vt).value, x)
  {
    if m == a {
      KeysCount(P, m, vt);
    } else {
      KeyStepOnlyMints(P, m, vt, x);
      KeysOnlyMints(P, a, m - 1, vt, x);
      OnlyMintsTrans(ConvertKeys(P, a, vt).value, ConvertKeys(P, m - 1, vt).value, ConvertKeys(P, m, vt).value, x);
    }
  }

  /** Right after its own iteration, a key holds its converted list. */
  lemma OwnKeyConverted(P: Table, vt: seq<char>, i: nat)
    requires P.Valid() && i < |P.keys| && ConvertKeys(P, i + 1, vt).Some?
    ensures P.keys[i] in ConvertKeys(P, i + 1, vt).value.table.rules
    ensures ListConverted(ConvertKeys(P, i + 1, vt).value.table.rules[P.keys[i]], P.rules[P.keys[i]])
  {
    var k := P.keys[i];
    var l := P.rules[k];
    ConvertKeysPrev(P, i + 1, vt);
    ConvertKeysNext(P, i, vt);
    ConvertListShape(l, |l|, vt, ConvertKeys(P, i, vt).value);
    assert l[..|l|] == l;
  }

  /**
   * The entry `k` of `st` once `c` names had been minted: it holds the converted list of
   * `l` unless its name was minted after the first `c`, and then it holds that name's pair.
   */
  ghost predicate Settled(st: Cnf, c: nat, k: char, l: seq<Rhs>) {
    && c <= st.count == |st.pairs| <= MintLimit && k in st.table.rules
    && ((forall j :: c <= j < st.count ==> Minted(j) != k) ==> ListConverted(st.table.rules[k], l))
    && (forall j :: c <= j < st.count && Minted(j) == k ==> st.table.rules[k] == [st.pairs[j]])
  }

  /** The two outcomes for an entry `k` that holds its converted list in `s1`. */
  lemma LateMint(s1: Cnf, st: Cnf, k: char, l: seq<Rhs>)
    requires OnlyMints(s1, st, k) && k in s1.table.rules && ListConverted(s1.table.rules[k], l) && st.count <= MintLimit
    ensures Settled(st, s1.count, k, l)
  {
    var n := NameIndex(k);
    if s1.count <= n < st.count {
      assert Minted(n) == k;
    }
  }

  /** A conversion that succeeds has succeeded on every prefix of the keys. */
  lemma ConvertKeysPrefix(P: Table, n: nat, vt: seq<char>)
    requires P.Valid() && n <= |P.keys| && TransformSpec(P, vt).Some?
    ensures ConvertKeys(P, n, vt).Some?
  {
    if ConvertKeys(P, n, vt).None? {
      KeysNoneStays(P, n, |P.keys|, vt);
    }
  }

  /**
   * A key of `P` whose name is also minted. `cnf[entry.Key] = newProductions` (:169) is the
   * last write of the key's own iteration (which ends in state `s1`), so a name minted
   * before or during it ends up holding the key's converted list; a name minted while a
   * later key is converted ends up holding its pair, and the key's converted productions
   * are lost.
   */
  lemma TransformLateMint(P: Table, vt: seq<char>, i: nat, s1: Cnf, st: Cnf)
    requires P.Valid() && i < |P.keys|
    requires ConvertKeys(P, i + 1, vt) == Some(s1) && TransformSpec(P, vt) == Some(st)
    ensures Settled(st, s1.count, P.keys[i], P.rules[P.keys[i]])
  {
    var k := P.keys[i];
    assert OnlyMints(s1, st, k) by {
      KeysOnlyMints(P, i + 1, |P.keys|, vt, k);
    }
    assert k in s1.table.rules && ListConverted(s1.table.rules[k], P.rules[k]) by {
      OwnKeyConverted(P, vt, i);
    }
    assert st.count <= MintLimit by {
      KeysCount(P, |P.keys|, vt);
    }
    LateMint(s1, st, k, P.rules[k]);
  }

  /**
   * `q` with its first symbol replaced by the pair that symbol names, when it is the
   * `i`-th name minted and `pairs` holds an `i`-th pair. Only the first symbol is read
   * back: a symbol further on may be an original variable that happens to carry a name
   * the counter also produces.
   */
  function UnfoldHead(q: Rhs, pairs: seq<Rhs>): Rhs {
    if q != [] && 0 <= NameIndex(q[0]) < |pairs| then pairs[NameIndex(q[0])] + q[1..] else q
  }

  /** `UnfoldHead` applied `k` times. */
  function Unfold(q: Rhs, pairs: seq<Rhs>, k: nat): Rhs {
    if k == 0 then q else UnfoldHead(Unfold(q, pairs, k - 1), pairs)
  }

  /** How many times the while loop of :155-165 shortens `p`. */
  function Extra(p: Rhs): nat {
    if |p| > 2 then |p| - 2 else 0
  }

  /** Each converted right-hand side, read back through the dictionary, is the original one. */
  ghost predicate Restores(qs: seq<Rhs>, l: seq<Rhs>, pairs: seq<Rhs>) {
    |qs| == |l| && forall i :: 0 <= i < |l| ==> Unfold(qs[i], pairs, Extra(l[i])) == l[i]
  }

  /**
   * One iteration of the while loop of :155-165 on a consistent dictionary: the first two
   * symbols become the `i`-th name, whose pair they are, and the dictionary only grows.
   */
  lemma PairingAdvance(cur: Rhs, st: Cnf) returns (st1: Cnf, i: nat)
    requires st.table.Valid() && CacheOk(st) && |cur| > 2 && Pairing(cur, st).Some?
    ensures st1.table.Valid() && CacheOk(st1) && st.pairs <= st1.pairs
    ensures i < |st1.pairs| && st1.pairs[i] == cur[..2]
    ensures Pairing(cur, st) == Pairing([Minted(i)] + cur[2..], st1)
  {
    var pair := cur[..2];
    if pair in st.cache {
      st1 := st;
      i :| 0 <= i < |st.pairs| && st.pairs[i] == pair;
    } else {
      st1, i := Mint(st, pair), st.count;
      MintKeepsCache(st, pair);
    }
  }

  /**
   * The while loop of :155-165 loses nothing: reading the first symbol of its result back
   * through `newVariables`, once per iteration, gives the right-hand side it started from.
   * `pairs` may be any later state of the dictionary.
   */
  lemma {:induction false} PairingUnfolds(cur: Rhs, st: Cnf, q: Rhs, st': Cnf, pairs: seq<Rhs>)
    requires st.table.Valid() && CacheOk(st) && Pairing(cur, st) == Some((q, st')) && st'.pairs <= pairs
    ensures Unfold(q, pairs, Extra(cur)) == cur
    decreases |cur|
  {
    if |cur| > 2 {
      var st1, i := PairingAdvance(cur, st);
      var next := [Minted(i)] + cur[2..];
      assert st1.pairs <= pairs by {
        PairingCache(next, st1);
        PrefixTrans(st1.pairs, st'.pairs, pairs);
      }
      PairingUnfolds(next, st1, q, st', pairs);
      UnfoldNamed(cur, i, pairs);
    }
  }

  /** Reading back the name the first two symbols were replaced by gives those two symbols. */
  lemma UnfoldNamed(cur: Rhs, i: nat, pairs: seq<Rhs>)
    requires |cur| > 2 && i < |pairs| && i < MintLimit && pairs[i] == cur[..2]
    ensures UnfoldHead([Minted(i)] + cur[2..], pairs) == cur
    ensures Extra(cur) == Extra([Minted(i)] + cur[2..]) + 1
  {
    assert NameIndex(Minted(i)) == i;
    assert cur[..2] + cur[2..] == cur;
  }

  /** Converting one right-hand side keeps the dictionary consistent and only adds to it. */
  lemma ConvertRhsCache(p: Rhs, vt: seq<char>, st: Cnf, q: Rhs, st': Cnf)
    requires st.table.Valid() && CacheOk(st) && ConvertRhs(p, vt, st) == Some((q, st'))
    ensures CacheOk(st') && st.pairs <= st'.pairs
  {
    if !(|p| == 1 && p[0] in vt) {
      PairingCache(p, st);
    }
  }

  /** A converted right-hand side, read back through the dictionary, is the original one. */
  lemma ConvertRhsUnfolds(p: Rhs, vt: seq<char>, st: Cnf, q: Rhs, st': Cnf, pairs: seq<Rhs>)
    requires st.table.Valid() && CacheOk(st) && ConvertRhs(p, vt, st) == Some((q, st')) && st'.pairs <= pairs
    ensures Unfold(q, pairs, Extra(p)) == p
  {
    if !(|p| == 1 && p[0] in vt) {
      PairingUnfolds(p, st, q, st', pairs);
    }
  }

  /** The last step of a list conversion that succeeded, named. */
  lemma ConvertListSplit(l: seq<Rhs>, n: nat, vt: seq<char>, st: Cnf, qs: seq<Rhs>, st': Cnf)
    returns (qs1: seq<Rhs>, st1: Cnf, q: Rhs)
    requires 0 < n <= |l| && st.table.Valid() && ConvertList(l, n, vt, st) == Some((qs, st'))
    ensures ConvertList(l, n - 1, vt, st) == Some((qs1, st1)) && st1.table.Valid()
    ensures ConvertRhs(l[n - 1], vt, st1) == Some((q, st')) && qs == qs1 + [q]
  {
    qs1, st1 := ConvertList(l, n - 1, vt, st).value.0, ConvertList(l, n - 1, vt, st).value.1;
    q := ConvertRhs(l[n - 1], vt, st1).value.0;
  }

  /** Converting a list keeps the dictionary consistent and only adds to it. */
  lemma {:induction false} ConvertListCache(l: seq<Rhs>, n: nat, vt: seq<char>, st: Cnf, qs: seq<Rhs>, st': Cnf)
    requires n <= |l| && st.table.Valid() && CacheOk(st) && ConvertList(l, n, vt, st) == Some((qs, st'))
    ensures CacheOk(st') && st.pairs <= st'.pairs
  {
    if n > 0 {
      var qs1, st1, q := ConvertListSplit(l, n, vt, st, qs, st');
      ConvertListCache(l, n - 1, vt, st, qs1, st1);
      ConvertRhsCache(l[n - 1], vt, st1, q, st');
      PrefixTrans(st.pairs, st1.pairs, st'.pairs);
    }
  }

  /** `newProductions`, read back through the dictionary, is the list it was converted from. */
  lemma {:induction false} ConvertListUnfolds(l: seq<Rhs>, n: nat, vt: seq<char>, st: Cnf, qs: seq<Rhs>, st': Cnf, pairs: seq<Rhs>)
    requires n <= |l| && st.table.Valid() && CacheOk(st)
    requires ConvertList(l, n, vt, st) == Some((qs, st')) && st'.pairs <= pairs
    ensures Restores(qs, l[..n], pairs)
  {
    if n > 0 {
      var qs1, st1, q := ConvertListSplit(l, n, vt, st, qs, st');
      ConvertListCache(l, n - 1, vt, st, qs1, st1);
      ConvertRhsCache(l[n - 1], vt, st1, q, st');
      PrefixTrans(st1.pairs, st'.pairs, pairs);
      ConvertListUnfolds(l, n - 1, vt, st, qs1, st1, pairs);
      ConvertRhsUnfolds(l[n - 1], vt, st1, q, st', pairs);
      TakeLast(l, n);
      RestoresSnoc(qs1, l[..n - 1], q, l[n - 1], pairs);
    }
  }

  lemma RestoresSnoc(qs: seq<Rhs>, ps: seq<Rhs>, q: Rhs, p: Rhs, pairs: seq<Rhs>)
    requires Restores(qs, ps, pairs) && Unfold(q, pairs, Extra(p)) == p
    ensures Restores(qs + [q], ps + [p], pairs)
  {
    assert forall i :: 0 <= i < |ps| ==> (qs + [q])[i] == qs[i] && (ps + [p])[i] == ps[i];
  }

  /** Right after its own iteration, a key holds a list that reads back to its original one. */
  lemma OwnKeyUnfolds(P: Table, vt: seq<char>, i: nat, s1: Cnf, pairs: seq<Rhs>)
    requires P.Valid() && i < |P.keys| && ConvertKeys(P, i + 1, vt) == Some(s1) && s1.pairs <= pairs
    ensures P.keys[i] in s1.table.rules && Restores(s1.table.rules[P.keys[i]], P.rules[P.keys[i]], pairs)
  {
    var k := P.keys[i];
    var l := P.rules[k];
    var st0, qs, st1 := ConvertKeysSplit(P, i + 1, vt, s1);
    assert CacheOk(st0) by {
      ConvertKeysKeeps(P, i, vt);
    }
    ConvertListUnfolds(l, |l|, vt, st0, qs, st1, pairs);
    assert l[..|l|] == l;
  }

  /**
   * A key of `P` whose name was not minted after its own iteration ends with a list that,
   * read back through the final dictionary, is its original list.
   */
  lemma TransformKeyUnfolds(P: Table, vt: seq<char>, i: nat, s1: Cnf, st: Cnf)
    requires P.Valid() && i < |P.keys|
    requires ConvertKeys(P, i + 1, vt) == Some(s1) && TransformSpec(P, vt) == Some(st)
    requires forall j :: s1.count <= j < st.count && j < MintLimit ==> Minted(j) != P.keys[i]
    ensures P.keys[i] in st.table.rules
    ensures Restores(st.table.rules[P.keys[i]], P.rules[P.keys[i]], st.pairs)
  {
    var k := P.keys[i];
    assert OnlyMints(s1, st, k) by {
      KeysOnlyMints(P, i + 1, |P.keys|, vt, k);
    }
    OwnKeyUnfolds(P, vt, i, s1, st.pairs);
  }

  /**
   * `TransformToCNF` loses no production: every key of `P` whose name was never minted
   * holds, position by position, right-hand sides that read back through `newVariables`
   * to its original ones; every minted name that is not a key of `P` holds its pair.
   */
  lemma TransformUnfolds(P: Table, vt: seq<char>, st: Cnf)
    requires P.Valid() && TransformSpec(P, vt) == Some(st)
    ensures CacheOk(st)
    ensures forall k :: k in P.rules && k !in st.cache.Values ==>
              k in st.table.rules && Restores(st.table.rules[k], P.rules[k], st.pairs)
    ensures forall j :: 0 <= j < st.count && Minted(j) !in P.rules ==>
              Minted(j) in st.table.rules && st.table.rules[Minted(j)] == [st.pairs[j]]
  {
    ConvertKeysKeeps(P, |P.keys|, vt);
    forall k | k in P.rules && k !in st.cache.Values
      ensures k in st.table.rules && Restores(st.table.rules[k], P.rules[k], st.pairs)
    {
      KeyUnfolds(P, vt, st, k);
    }
    forall j | 0 <= j < st.count && Minted(j) !in P.rules
      ensures Minted(j) in st.table.rules && st.table.rules[Minted(j)] == [st.pairs[j]]
    {
      assert st.cache[st.pairs[j]] == Minted(j);
    }
  }

  lemma KeyUnfolds(P: Table, vt: seq<char>, st: Cnf, k: char)
    requires P.Valid() && TransformSpec(P, vt) == Some(st) && CacheOk(st)
    requires k in P.rules && k !in st.cache.Values
    ensures k in st.table.rules && Restores(st.table.rules[k], P.rules[k], st.pairs)
  {
    var i :| 0 <= i < |P.keys| && P.keys[i] == k;
    ConvertKeysPrefix(P, i + 1, vt);
    var s1 := ConvertKeys(P, i + 1, vt).value;
    assert forall j :: 0 <= j < st.count && j < MintLimit ==> Minted(j) != k by {
      CacheNames(st, k);
    }
    TransformKeyUnfolds(P, vt, i, s1, st);
  }
}
