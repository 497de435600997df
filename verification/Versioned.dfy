/** Incremental synchronisation of a versioned table with tombstones: the server stamps every
    change with a new version, and a client fetches only what is newer than its own version. */
module Versioned {
  import opened Addr

  /** `Unreadable` is a record the fetch cannot parse and therefore never sends. */
  datatype Entry<C> = Live(ver: nat, content: C) | Dead(ver: nat) | Unreadable

  datatype Server<C> = Server(ver: nat, table: map<LogicAddr, Entry<C>>)

  datatype Copy<C> = Copy(ver: nat, items: map<LogicAddr, C>)

  /** What a client that knew everything would hold. */
  function Current<C>(s: Server<C>): map<LogicAddr, C> {
    map a | a in s.table && s.table[a].Live? :: s.table[a].content
  }

  ghost predicate ServerOk<C>(s: Server<C>) {
    && (s.ver == 0 ==> s.table == map[])
    && (forall a :: a in s.table && !s.table[a].Unreadable? ==> 0 < s.table[a].ver <= s.ver)
  }

  /** One atomic change of the server: touched entries carry the new version, except that a
      dead one may become unreadable. Entries never disappear. */
  ghost predicate Advance<C>(s: Server<C>, s': Server<C>) {
    && s.ver <= s'.ver
    && ServerOk(s')
    && s.table.Keys <= s'.table.Keys
    && (forall a :: a in s'.table ==>
          || (a in s.table && s'.table[a] == s.table[a])
          || (!s'.table[a].Unreadable? && s'.table[a].ver > s.ver)
          || (a in s.table && s.table[a].Dead? && s'.table[a].Unreadable?))
  }

  predicate Sent<C>(s: Server<C>, since: nat, a: LogicAddr) {
    a in s.table &&
    match s.table[a]
    case Live(ver, _) => since == 0 || ver > since
    case Dead(ver) => since != 0 && ver > since
    case Unreadable => false
  }

  predicate UpToDate<C>(copy: Copy<C>, s: Server<C>) {
    s.ver == 0 || s.ver == copy.ver
  }

  function Fetched<C>(copy: Copy<C>, s: Server<C>): map<LogicAddr, C> {
    map a | a in copy.items.Keys + s.table.Keys &&
            (if Sent(s, copy.ver, a) then s.table[a].Live? else a in copy.items)
      :: if Sent(s, copy.ver, a) then s.table[a].content else copy.items[a]
  }

  function Poll<C>(copy: Copy<C>, s: Server<C>): Copy<C> {
    if UpToDate(copy, s) then copy else Copy(s.ver, Fetched(copy, s))
  }

  /** Entries at or below the client's version have not changed since the client saw them. */
  ghost predicate Synced<C>(copy: Copy<C>, s: Server<C>) {
    && ServerOk(s)
    && copy.ver <= s.ver
    && copy.items.Keys <= s.table.Keys
    && (forall a :: a in s.table ==>
          match s.table[a]
          case Live(ver, c) => ver <= copy.ver ==> a in copy.items && copy.items[a] == c
          case Dead(ver) => ver <= copy.ver ==> a !in copy.items
          case Unreadable => true)
  }

  /** The client holds an item whose disappearance the next fetch will not report. */
  predicate Missed<C>(copy: Copy<C>, s: Server<C>, a: LogicAddr) {
    a in copy.items && a in s.table && (s.table[a].Unreadable? || (copy.ver == 0 && s.table[a].Dead?))
  }

  lemma AdvanceKeeps<C>(copy: Copy<C>, s: Server<C>, s': Server<C>)
    requires Synced(copy, s) && Advance(s, s')
    ensures Synced(copy, s')
  {
    assert copy.items.Keys <= s'.table.Keys;
    forall a | a in s'.table
      ensures match s'.table[a]
              case Live(ver, c) => ver <= copy.ver ==> a in copy.items && copy.items[a] == c
              case Dead(ver) => ver <= copy.ver ==> a !in copy.items
              case Unreadable => true
    {
      if !(a in s.table && s'.table[a] == s.table[a]) && !s'.table[a].Unreadable? {
        assert s'.table[a].ver > s.ver;
      }
    }
  }

  /** After a fetch the client holds exactly the live entries if and only if it had missed
      nothing, although it received only entries newer than its version. */
  lemma PollExact<C>(copy: Copy<C>, s: Server<C>)
    requires Synced(copy, s)
    ensures Poll(copy, s).items == Current(s) <==> forall a :: !Missed(copy, s, a)
    ensures (forall a :: !Missed(copy, s, a)) ==> Synced(Poll(copy, s), s)
  {
    var p := Poll(copy, s);
    forall a
      ensures (a in p.items <==> a in Current(s)) && (a in p.items ==> p.items[a] == Current(s)[a])
              <==> !Missed(copy, s, a)
    {
      if a in s.table && !s.table[a].Unreadable? { assert 0 < s.table[a].ver <= s.ver; }
    }
    if forall a :: !Missed(copy, s, a) {
      assert p.items == Current(s);
    } else {
      var a :| Missed(copy, s, a);
      assert p.items != Current(s);
    }
  }

  /** Going back to version 0 without dropping the items keeps the relation. */
  lemma ResetKeeps<C>(copy: Copy<C>, s: Server<C>)
    requires Synced(copy, s)
    ensures Synced(copy.(ver := 0), s)
  {
    forall a | a in s.table && !s.table[a].Unreadable? ensures s.table[a].ver > 0 {
    }
  }
}
