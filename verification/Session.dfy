/**
 Connections over one engine: the current database, BEGIN/COMMIT/ROLLBACK snapshots
 and each connection's one-entry result cache stamped with the write generation.
 */
module Sessions {
  import opened Numbers
  import opened Sql
  import opened Texts
  import opened TableSpec
  import TableRuns

  type Tables = map<string, View>
  type Catalog = map<string, Tables>

  /** A reply stands for the bytes it is serialised to. */
  datatype Reply =
    | OkReply(affected: nat, lastId: nat)
    | ErrReply(code: nat)
    | RowsReply(columns: seq<string>, rows: seq<seq<Option<string>>>)

  datatype Stmt = Use(db: string) | Other(text: string)

  /** What executing one statement does; `bumps` counts the generation bumps inside the statement itself. */
  datatype Outcome = Outcome(dbs: Catalog, reply: Reply, bumps: nat)

  /**
   What the session code only calls: who is logged in on a connection, the texts answered before the
   parser, the parser, the privilege check of a user, the statement executor and the query hash.
   */
  datatype Host = Host(
    login: nat -> string,
    builtin: (string, Option<string>, Catalog) -> Option<Reply>,
    parse: string -> Option<seq<Stmt>>,
    deny: (string, string, Option<string>) -> Option<nat>,
    exec: (string, Option<string>, Catalog) -> Outcome,
    hash: string -> U64)

  type U64 = x: int | 0 <= x < TWO_64

  datatype World = World(dbs: Catalog, gen: U64)

  /** One connection. */
  datatype Conn = Conn(user: string, currentDb: Option<string>, txn: Option<Catalog>,
                       l0Hash: U64, l0Gen: U64, l0Reply: Option<Reply>)

  function Fresh(user: string): Conn {
    Conn(user, None, None, 0, TWO_64 - 1, None)
  }

  // ----- Command texts -----

  predicate IsWord(sql: string, word: string) {
    SameName(sql, word)
  }

  predicate IsSelectOne(sql: string) {
    IsWord(Trim(sql), "SELECT 1") || IsWord(Trim(sql), "SELECT 1;")
  }

  /** The database a `USE` text names, when it holds no semicolon. */
  function UseTarget(sql: string): Option<string> {
    var t := Trim(sql);
    if |t| < 4 || !IsWord(t[..4], "USE ") then None
    else
      var rest := Trim(t[4..]);
      if ';' in rest then None else Some(TrimEndOf(TrimStartOf(rest, '`'), '`'))
  }

  datatype Control = Begin | Commit | Rollback | Plain

  function ControlOf(sql: string): Control {
    var t := TrimEndOf(Trim(sql), ';');
    if IsWord(t, "BEGIN") || IsWord(t, "START TRANSACTION") then Begin
    else if IsWord(t, "COMMIT") then Commit
    else if IsWord(t, "ROLLBACK") then Rollback
    else Plain
  }

  // ----- The engine -----

  /** The counter wraps around at 2^64. */
  function Bump(gen: U64, times: nat): U64 {
    (gen + times) % TWO_64
  }

  lemma BumpTwice(gen: U64, a: nat, b: nat)
    ensures Bump(Bump(gen, a), b) == Bump(gen, a + b)
  {
    var q := (gen + a) / TWO_64;
    assert gen + a == q * TWO_64 + (gen + a) % TWO_64;
  }

  datatype Executed = Executed(dbs: Catalog, reply: Reply, bumps: nat)

  /** Statements of a batch run in turn; each one that ends in OK bumps the generation once more. */
  function ExecuteBatch(h: Host, stmts: seq<Stmt>, db: Option<string>, dbs: Catalog): Executed {
    if stmts == [] then Executed(dbs, OkReply(0, 0), 0)
    else
      var front, last := stmts[..|stmts| - 1], stmts[|stmts| - 1];
      var before := ExecuteBatch(h, front, db, dbs);
      match last
      case Use(_) => Executed(before.dbs, OkReply(0, 0), before.bumps + 1)
      case Other(text) =>
        var out := h.exec(text, EffectiveDb(stmts, db), before.dbs);
        Executed(out.dbs, out.reply, before.bumps + out.bumps + (if out.reply.OkReply? then 1 else 0))
  }

  /** The database in effect after the `USE` statements of a batch. */
  function EffectiveDb(stmts: seq<Stmt>, db: Option<string>): Option<string> {
    if stmts == [] then db
    else
      var last := stmts[|stmts| - 1];
      if last.Use? then Some(TrimEndOf(TrimStartOf(last.db, '`'), '`')) else EffectiveDb(stmts[..|stmts| - 1], db)
  }

  /** A text answered before the parser needs no privilege, changes no table and bumps nothing. */
  function Execute(h: Host, user: string, sql: string, db: Option<string>, dbs: Catalog): Executed {
    var stmts := h.parse(sql);
    if h.builtin(sql, db, dbs).Some? then Executed(dbs, h.builtin(sql, db, dbs).value, 0)
    else if stmts.None? then Executed(dbs, ErrReply(1064), 0)
    else if h.deny(user, sql, db).Some? then Executed(dbs, ErrReply(h.deny(user, sql, db).value), 0)
    else ExecuteBatch(h, stmts.value, db, dbs)
  }

  /** ROLLBACK gives back the tables of every database that is in the snapshot and still there. */
  function Restored(dbs: Catalog, snap: Catalog): (r: Catalog)
    ensures r.Keys == dbs.Keys
  {
    map d | d in dbs :: if d in snap then snap[d] else dbs[d]
  }

  class Engine {
    var dbs: Catalog
    var gen: U64

    ghost function State(): World
      reads this
    {
      World(dbs, gen)
    }

    method TakeSnapshot() returns (snap: Catalog)
      ensures snap == dbs
    {
      snap := map[];
      var rest := dbs.Keys;
      while rest != {}
        invariant rest <= dbs.Keys && snap.Keys == dbs.Keys - rest
        invariant forall d :: d in snap ==> snap[d] == dbs[d]
        decreases rest
      {
        var d :| d in rest;
        snap := snap[d := dbs[d]];
        rest := rest - {d};
      }
    }

    method RestoreSnapshot(snap: Catalog)
      modifies this
      ensures State() == World(Restored(old(dbs), snap), Bump(old(gen), 1))
    {
      var rest := snap.Keys;
      while rest != {}
        invariant rest <= snap.Keys && dbs.Keys == old(dbs).Keys && gen == old(gen)
        invariant forall d :: d in dbs ==> dbs[d] == if d in snap && d !in rest then snap[d] else old(dbs)[d]
        decreases rest
      {
        var d :| d in rest;
        if d in dbs {
          dbs := dbs[d := snap[d]];
        }
        rest := rest - {d};
      }
      gen := Bump(gen, 1);
    }

    method ExecuteText(h: Host, user: string, sql: string, db: Option<string>) returns (reply: Reply)
      modifies this
      ensures
        var out := Execute(h, user, sql, db, old(dbs));
        State() == World(out.dbs, Bump(old(gen), out.bumps)) && reply == out.reply
    {
      if h.builtin(sql, db, dbs).Some? { return h.builtin(sql, db, dbs).value; }
      var stmts := h.parse(sql);
      if stmts.None? { return ErrReply(1064); }
      if h.deny(user, sql, db).Some? { return ErrReply(h.deny(user, sql, db).value); }
      var eff := db;
      reply := OkReply(0, 0);
      ghost var bumps: nat := 0;
      for i := 0 to |stmts.value|
        invariant Executed(dbs, reply, bumps) == ExecuteBatch(h, stmts.value[..i], db, old(dbs))
        invariant eff == EffectiveDb(stmts.value[..i], db)
        invariant gen == Bump(old(gen), bumps)
      {
        var stmt := stmts.value[i];
        assert stmts.value[..i + 1][..i] == stmts.value[..i];
        match stmt {
        case Use(name) =>
          eff, reply := Some(TrimEndOf(TrimStartOf(name, '`'), '`')), OkReply(0, 0);
        case Other(text) =>
          var out := h.exec(text, eff, dbs);
          dbs, reply := out.dbs, out.reply;
          BumpTwice(old(gen), bumps, out.bumps);
          gen, bumps := Bump(gen, out.bumps), bumps + out.bumps;
        }
        if reply.OkReply? {
          BumpTwice(old(gen), bumps, 1);
          gen, bumps := Bump(gen, 1), bumps + 1;
        }
      }
      assert stmts.value[..|stmts.value|] == stmts.value;
    }
  }

  // ----- One query text on one connection -----

  /** What a text did: the new world and connection, the reply, and whether it came from the cache. */
  datatype Step = Step(world: World, conn: Conn, reply: Reply, hit: bool)

  const DONE: Reply := OkReply(0, 0)
  const SELECT_1: Reply := RowsReply(["1"], [[Some("1")]])

  function DbFor(sql: string, db: Option<string>): Option<string> {
    if UseTarget(sql).Some? then UseTarget(sql) else db
  }

  /** Look the text up in the cache, else execute it and remember the reply unless it is an error. */
  function Answer(h: Host, w: World, c: Conn, sql: string): Step {
    if h.hash(sql) == c.l0Hash && w.gen == c.l0Gen && c.l0Reply.Some? then Step(w, c, c.l0Reply.value, true)
    else
      var out := Execute(h, c.user, sql, c.currentDb, w.dbs);
      var w' := World(out.dbs, Bump(w.gen, out.bumps));
      var stamped := c.(l0Hash := h.hash(sql), l0Gen := w'.gen, l0Reply := Some(out.reply));
      Step(w', if out.reply.ErrReply? then c else stamped, out.reply, false)
  }

  function QueryStep(h: Host, w: World, c: Conn, sql: string): Step {
    if IsSelectOne(sql) then Step(w, c, SELECT_1, false)
    else
      var c' := c.(currentDb := DbFor(sql, c.currentDb));
      match ControlOf(sql)
      case Begin => Step(w, c'.(txn := Some(w.dbs)), DONE, false)
      case Commit => Step(w, c'.(txn := None), DONE, false)
      case Rollback =>
        if c'.txn.None? then Step(w, c', DONE, false)
        else Step(World(Restored(w.dbs, c'.txn.value), Bump(w.gen, 1)), c'.(txn := None), DONE, false)
      case Plain => Answer(h, w, c', sql)
  }

  class Session {
    const user: string
    var currentDb: Option<string>
    var txnSnapshot: Option<Catalog>
    var l0Hash: U64
    var l0Gen: U64
    var l0Reply: Option<Reply>

    ghost function State(): Conn
      reads this
    {
      Conn(user, currentDb, txnSnapshot, l0Hash, l0Gen, l0Reply)
    }

    constructor (user: string)
      ensures State() == Fresh(user)
    {
      this.user := user;
      currentDb, txnSnapshot, l0Hash, l0Gen, l0Reply := None, None, 0, TWO_64 - 1, None;
    }

    method InitDb(name: string)
      modifies this
      ensures State() == old(State()).(currentDb := Some(name), l0Hash := 0)
    {
      currentDb := Some(name);
      l0Hash := 0;
    }

    method Query(h: Host, engine: Engine, sql: string) returns (reply: Reply)
      modifies this, engine
      ensures
        var step := QueryStep(h, old(engine.State()), old(State()), sql);
        engine.State() == step.world && State() == step.conn && reply == step.reply
    {
      if IsSelectOne(sql) { return SELECT_1; }
      if UseTarget(sql).Some? {
        currentDb := UseTarget(sql);
      }
      match ControlOf(sql)
      case Begin =>
        var snap := engine.TakeSnapshot();
        txnSnapshot := Some(snap);
        reply := DONE;
      case Commit =>
        txnSnapshot := None;
        reply := DONE;
      case Rollback =>
        if txnSnapshot.Some? {
          engine.RestoreSnapshot(txnSnapshot.value);
          txnSnapshot := None;
        }
        reply := DONE;
      case Plain =>
        var qhash, curGen := h.hash(sql), engine.gen;
        if qhash == l0Hash && curGen == l0Gen && l0Reply.Some? { return l0Reply.value; }
        reply := engine.ExecuteText(h, user, sql, currentDb);
        if !reply.ErrReply? {
          l0Hash, l0Gen, l0Reply := qhash, engine.gen, Some(reply);
        }
    }
  }

  // ----- Any number of connections -----

  datatype Server = Server(world: World, conns: map<nat, Conn>)

  /** One atomic step of one connection; a connection not seen before starts fresh. */
  datatype Event = InitDb(who: nat, name: string) | Query(who: nat, sql: string)

  function ConnOf(h: Host, s: Server, who: nat): Conn {
    if who in s.conns then s.conns[who] else Fresh(h.login(who))
  }

  function Next(h: Host, s: Server, e: Event): Server {
    match e
    case InitDb(who, name) => s.(conns := s.conns[who := ConnOf(h, s, who).(currentDb := Some(name), l0Hash := 0)])
    case Query(who, sql) =>
      var step := QueryStep(h, s.world, ConnOf(h, s, who), sql);
      Server(step.world, s.conns[who := step.conn])
  }

  function Run(h: Host, s: Server, es: seq<Event>): Server {
    if es == [] then s else Next(h, Run(h, s, es[..|es| - 1]), es[|es| - 1])
  }

  // ----- What the cache may rely on -----

  /** Executing the text bumps the generation whenever it changes the catalogue. */
  predicate IsSeen(h: Host, user: string, sql: string, db: Option<string>, dbs: Catalog) {
    Execute(h, user, sql, db, dbs).dbs != dbs ==> Execute(h, user, sql, db, dbs).bumps > 0
  }

  /** Texts whose execution never changes the catalogue. */
  ghost predicate IsReadOnly(h: Host, sql: string) {
    forall user, db, dbs :: Execute(h, user, sql, db, dbs).dbs == dbs
  }

  /** No two texts in use share a hash, and none hashes to the value that marks an emptied cache. */
  ghost predicate NoCollision(h: Host, texts: set<string>) {
    && (forall q :: q in texts ==> h.hash(q) != 0)
    && (forall q, r :: q in texts && r in texts && h.hash(q) == h.hash(r) ==> q == r)
  }

  /** The generation counter does not wrap around in this step. */
  predicate DoesNotWrap(h: Host, w: World, c: Conn, sql: string) {
    && w.gen + 1 < TWO_64
    && w.gen + Execute(h, c.user, sql, DbFor(sql, c.currentDb), w.dbs).bumps < TWO_64
  }

  /** A `USE` text without semicolons is a catalogue query, or parses to that one statement, or does not parse. */
  ghost predicate UsesAreOrdinary(h: Host, texts: set<string>) {
    forall sql :: sql in texts && UseTarget(sql).Some? ==>
      && (forall db, dbs :: h.builtin(sql, db, dbs).Some? ==> !h.builtin(sql, db, dbs).value.ErrReply?)
      && (h.parse(sql).Some? ==> |h.parse(sql).value| == 1 && h.parse(sql).value[0].Use?)
  }

  /** The text is answered before the parser, or it parses and the user may use the database it names. */
  predicate IsAccepted(h: Host, user: string, sql: string, dbs: Catalog) {
    || h.builtin(sql, UseTarget(sql), dbs).Some?
    || (h.parse(sql).Some? && h.deny(user, sql, UseTarget(sql)).None?)
  }

  /** A `USE` that names another database is accepted. */
  predicate SwitchAccepted(h: Host, s: Server, e: Event) {
    e.Query? && UseTarget(e.sql).Some? && UseTarget(e.sql) != ConnOf(h, s, e.who).currentDb
    ==> IsAccepted(h, ConnOf(h, s, e.who).user, e.sql, s.world.dbs)
  }

  /** A text in use that is seen to change what it changes, at the catalogue it meets. */
  predicate Ordinary(h: Host, s: Server, e: Event, texts: set<string>) {
    e.Query? ==>
      var c := ConnOf(h, s, e.who);
      && e.sql in texts && DoesNotWrap(h, s.world, c, e.sql)
      && IsSeen(h, c.user, e.sql, DbFor(e.sql, c.currentDb), s.world.dbs)
  }

  ghost predicate OrdinaryRun(h: Host, s: Server, es: seq<Event>, texts: set<string>) {
    es != [] ==>
      OrdinaryRun(h, s, es[..|es| - 1], texts) && Ordinary(h, Run(h, s, es[..|es| - 1]), es[|es| - 1], texts)
  }

  ghost predicate SwitchesAccepted(h: Host, s: Server, es: seq<Event>) {
    es != [] ==>
      SwitchesAccepted(h, s, es[..|es| - 1]) && SwitchAccepted(h, Run(h, s, es[..|es| - 1]), es[|es| - 1])
  }

  // ----- Coherence -----

  /** The step stores a reply in the connection's cache. */
  predicate Stamps(h: Host, w: World, c: Conn, sql: string) {
    var step := QueryStep(h, w, c, sql);
    !IsSelectOne(sql) && ControlOf(sql) == Plain && !step.hit && !step.reply.ErrReply?
  }

  /** The database the cached reply belongs to: the one in effect when it was stored. */
  function StampedDb(h: Host, s: Server, es: seq<Event>, who: nat): Option<string> {
    if es == [] then None
    else
      var front, e := es[..|es| - 1], es[|es| - 1];
      var before := Run(h, s, front);
      if e.Query? && e.who == who && Stamps(h, before.world, ConnOf(h, before, who), e.sql)
      then DbFor(e.sql, ConnOf(h, before, who).currentDb)
      else StampedDb(h, s, front, who)
  }

  /** Whatever read-only text this connection could get from its cache now, it would get from executing it under
      `db`. */
  ghost predicate Coherent(h: Host, w: World, c: Conn, db: Option<string>, texts: set<string>) {
    c.l0Reply.Some? ==>
      && c.l0Gen <= w.gen
      && forall q :: q in texts && IsReadOnly(h, q) && h.hash(q) == c.l0Hash && c.l0Gen == w.gen ==>
           c.l0Reply.value == Execute(h, c.user, q, DbFor(q, db), w.dbs).reply
  }

  /** Each statement of a batch, at the catalogue it meets, ends in OK or bumps by itself if it changes anything. */
  predicate StatementsBump(h: Host, stmts: seq<Stmt>, db: Option<string>, dbs: Catalog) {
    stmts == [] ||
    var front, last := stmts[..|stmts| - 1], stmts[|stmts| - 1];
    && StatementsBump(h, front, db, dbs)
    && (last.Other? ==>
          var met := ExecuteBatch(h, front, db, dbs).dbs;
          var out := h.exec(last.text, EffectiveDb(stmts, db), met);
          out.dbs != met ==> out.reply.OkReply? || out.bumps > 0)
  }

  lemma {:induction false} BatchBumps(h: Host, stmts: seq<Stmt>, db: Option<string>, dbs: Catalog)
    requires StatementsBump(h, stmts, db, dbs)
    ensures ExecuteBatch(h, stmts, db, dbs).dbs != dbs ==> ExecuteBatch(h, stmts, db, dbs).bumps > 0
  {
    if stmts != [] {
      BatchBumps(h, stmts[..|stmts| - 1], db, dbs);
    }
  }

  /** A text is seen to change what it changes when each of its statements is. */
  lemma ChangesBump(h: Host, user: string, sql: string, db: Option<string>, dbs: Catalog)
    requires h.parse(sql).Some? ==> StatementsBump(h, h.parse(sql).value, db, dbs)
    ensures IsSeen(h, user, sql, db, dbs)
  {
    if h.parse(sql).Some? {
      BatchBumps(h, h.parse(sql).value, db, dbs);
    }
  }

  lemma AnswerMovesOn(h: Host, w: World, c: Conn, sql: string)
    requires IsSeen(h, c.user, sql, c.currentDb, w.dbs)
    requires w.gen + Execute(h, c.user, sql, c.currentDb, w.dbs).bumps < TWO_64
    ensures var w' := Answer(h, w, c, sql).world; w.gen <= w'.gen && (w'.gen == w.gen ==> w' == w)
  {
  }

  lemma QueryMovesOn(h: Host, w: World, c: Conn, sql: string)
    requires IsSeen(h, c.user, sql, DbFor(sql, c.currentDb), w.dbs) && DoesNotWrap(h, w, c, sql)
    ensures var w' := QueryStep(h, w, c, sql).world; w.gen <= w'.gen && (w'.gen == w.gen ==> w' == w)
  {
    AnswerMovesOn(h, w, c.(currentDb := DbFor(sql, c.currentDb)), sql);
  }

  /** The world after a query is the old one, or one of a later generation. */
  lemma WorldMovesOn(h: Host, s: Server, e: Event, texts: set<string>)
    requires Ordinary(h, s, e, texts)
    ensures
      var w' := Next(h, s, e).world;
      s.world.gen <= w'.gen && (w'.gen == s.world.gen ==> w' == s.world)
  {
    if e.Query? {
      QueryMovesOn(h, s.world, ConnOf(h, s, e.who), e.sql);
    }
  }

  lemma CoherentInLaterWorld(h: Host, w: World, w': World, c: Conn, db: Option<string>, texts: set<string>)
    requires Coherent(h, w, c, db, texts) && w.gen <= w'.gen && (w'.gen == w.gen ==> w' == w)
    ensures Coherent(h, w', c, db, texts)
  {
  }

  /** A reply is stored for the database in effect; a hit or an error leaves the cache to the one it was stored for. */
  lemma AnswerKeepsCoherent(h: Host, w: World, c: Conn, sql: string, db: Option<string>, texts: set<string>)
    requires NoCollision(h, texts) && sql in texts && IsSeen(h, c.user, sql, c.currentDb, w.dbs)
    requires Coherent(h, w, c, db, texts) && c.currentDb == DbFor(sql, c.currentDb)
    requires w.gen + Execute(h, c.user, sql, c.currentDb, w.dbs).bumps < TWO_64
    ensures
      var step := Answer(h, w, c, sql);
      Coherent(h, step.world, step.conn, if step.hit || step.reply.ErrReply? then db else c.currentDb, texts)
  {
    var step := Answer(h, w, c, sql);
    if !step.hit && !step.reply.ErrReply? {
      forall q | q in texts && IsReadOnly(h, q) && h.hash(q) == step.conn.l0Hash
        ensures step.conn.l0Reply.value == Execute(h, c.user, q, DbFor(q, c.currentDb), step.world.dbs).reply
      {
        assert q == sql;
        assert Execute(h, c.user, q, c.currentDb, w.dbs).dbs == w.dbs;
      }
    } else if !step.hit {
      CoherentInLaterWorld(h, w, step.world, c, db, texts);
    }
  }

  lemma QueryKeepsCoherent(h: Host, w: World, c: Conn, sql: string, db: Option<string>, texts: set<string>)
    requires NoCollision(h, texts) && sql in texts && Coherent(h, w, c, db, texts)
    requires IsSeen(h, c.user, sql, DbFor(sql, c.currentDb), w.dbs) && DoesNotWrap(h, w, c, sql)
    ensures
      var step := QueryStep(h, w, c, sql);
      Coherent(h, step.world, step.conn, if Stamps(h, w, c, sql) then DbFor(sql, c.currentDb) else db, texts)
  {
    var c' := c.(currentDb := DbFor(sql, c.currentDb));
    if IsSelectOne(sql) {
    } else if ControlOf(sql) == Plain {
      AnswerKeepsCoherent(h, w, c', sql, db, texts);
    } else {
      QueryMovesOn(h, w, c, sql);
      CoherentInLaterWorld(h, w, QueryStep(h, w, c, sql).world, c, db, texts);
    }
  }

  /** Every step of every connection keeps the cache of each one coherent with the database its reply belongs to. */
  lemma NextKeepsCoherent(h: Host, s: Server, e: Event, who: nat, db: Option<string>, texts: set<string>)
    requires NoCollision(h, texts) && Ordinary(h, s, e, texts)
    requires Coherent(h, s.world, ConnOf(h, s, who), db, texts)
    ensures
      var s', c := Next(h, s, e), ConnOf(h, s, who);
      var stamped := e.Query? && e.who == who && Stamps(h, s.world, c, e.sql);
      Coherent(h, s'.world, ConnOf(h, s', who), if stamped then DbFor(e.sql, c.currentDb) else db, texts)
  {
    WorldMovesOn(h, s, e, texts);
    if who != e.who {
      CoherentInLaterWorld(h, s.world, Next(h, s, e).world, ConnOf(h, s, who), db, texts);
    } else if e.Query? {
      QueryKeepsCoherent(h, s.world, ConnOf(h, s, who), e.sql, db, texts);
    } else {
      InitDbKeepsCoherent(h, s, e, db, texts);
    }
  }

  lemma InitDbKeepsCoherent(h: Host, s: Server, e: Event, db: Option<string>, texts: set<string>)
    requires NoCollision(h, texts) && e.InitDb? && Coherent(h, s.world, ConnOf(h, s, e.who), db, texts)
    ensures Coherent(h, Next(h, s, e).world, ConnOf(h, Next(h, s, e), e.who), db, texts)
  {
    assert ConnOf(h, Next(h, s, e), e.who).l0Hash == 0;
  }

  /** So does any interleaving of steps by any number of connections. */
  lemma {:induction false} RunKeepsCoherent(h: Host, s: Server, es: seq<Event>, who: nat, texts: set<string>)
    requires NoCollision(h, texts) && OrdinaryRun(h, s, es, texts)
    requires s.conns == map[]
    ensures Coherent(h, Run(h, s, es).world, ConnOf(h, Run(h, s, es), who), StampedDb(h, s, es, who), texts)
  {
    if es != [] {
      var front, e := es[..|es| - 1], es[|es| - 1];
      RunKeepsCoherent(h, s, front, who, texts);
      NextKeepsCoherent(h, Run(h, s, front), e, who, StampedDb(h, s, front, who), texts);
    }
  }

  lemma DifferentFirstLetters(a: string, b: string)
    requires b != "" && (a == "" || LowerChar(a[0]) != LowerChar(b[0]))
    ensures !IsWord(a, b)
  {
    if a == "" {
      assert |Lower(a)| != |Lower(b)|;
    } else {
      assert Lower(a)[0] != Lower(b)[0];
    }
  }

  lemma ControlSwitchesNothing(sql: string)
    ensures UseTarget(sql).Some? ==> ControlOf(sql) == Plain
  {
    var t := Trim(sql);
    var u := TrimEndOf(t, ';');
    TrimEndOfIsPrefix(t, ';');
    if UseTarget(sql).Some? {
      assert Lower(t[..4])[0] == Lower("USE ")[0];
      assert LowerChar(t[0]) == 'u';
      DifferentFirstLetters(u, "BEGIN");
      DifferentFirstLetters(u, "START TRANSACTION");
      DifferentFirstLetters(u, "COMMIT");
      DifferentFirstLetters(u, "ROLLBACK");
    }
  }

  lemma {:induction false} TrimEndOfIsPrefix(s: string, c: char)
    ensures TrimEndOf(s, c) <= s
  {
    if s != "" && s[|s| - 1] == c {
      TrimEndOfIsPrefix(s[..|s| - 1], c);
    }
  }

  lemma {:induction false} UserStays(h: Host, s: Server, es: seq<Event>, who: nat)
    ensures ConnOf(h, Run(h, s, es), who).user == ConnOf(h, s, who).user
  {
    if es != [] {
      UserStays(h, s, es[..|es| - 1], who);
    }
  }

  /** Whatever happened before, a read-only text answered from the cache gets exactly what executing it now under the
      database the reply was stored for would give. */
  lemma HitsAnswerForStampedDb(h: Host, s: Server, es: seq<Event>, who: nat, q: string, texts: set<string>)
    requires NoCollision(h, texts) && OrdinaryRun(h, s, es, texts)
    requires s.conns == map[] && q in texts && IsReadOnly(h, q)
    ensures
      var now := Run(h, s, es);
      var step := QueryStep(h, now.world, ConnOf(h, now, who), q);
      step.hit ==>
        step.world == now.world &&
        step.reply == Execute(h, h.login(who), q, DbFor(q, StampedDb(h, s, es, who)), now.world.dbs).reply
  {
    RunKeepsCoherent(h, s, es, who, texts);
    UserStays(h, s, es, who);
  }

  /** The cached reply belongs to the current database, and to the target when its text is a `USE`. */
  ghost predicate InPlace(h: Host, c: Conn, db: Option<string>, texts: set<string>) {
    c.l0Reply.Some? && c.l0Hash != 0 ==>
      db == c.currentDb && forall q :: q in texts && h.hash(q) == c.l0Hash && UseTarget(q).Some? ==> db == UseTarget(q)
  }

  lemma AcceptedMeansOk(h: Host, user: string, use: string, dbs: Catalog)
    requires UsesAreOrdinary(h, {use}) && UseTarget(use).Some?
    ensures
      var out := Execute(h, user, use, UseTarget(use), dbs);
      out.dbs == dbs && (out.reply.ErrReply? <==> !IsAccepted(h, user, use, dbs))
  {
    if h.builtin(use, UseTarget(use), dbs).None? && IsAccepted(h, user, use, dbs) {
      var stmts := h.parse(use).value;
      assert stmts[|stmts| - 1].Use? && stmts[..|stmts| - 1] == [];
      assert ExecuteBatch(h, [], UseTarget(use), dbs) == Executed(dbs, OkReply(0, 0), 0);
      assert Execute(h, user, use, UseTarget(use), dbs) == ExecuteBatch(h, stmts, UseTarget(use), dbs);
    }
  }

  lemma QueryKeepsInPlace(h: Host, w: World, c: Conn, sql: string, db: Option<string>, texts: set<string>)
    requires UsesAreOrdinary(h, texts) && NoCollision(h, texts) && sql in texts && InPlace(h, c, db, texts)
    requires UseTarget(sql).Some? && UseTarget(sql) != c.currentDb ==> IsAccepted(h, c.user, sql, w.dbs)
    ensures
      var stamped := if Stamps(h, w, c, sql) then DbFor(sql, c.currentDb) else db;
      InPlace(h, QueryStep(h, w, c, sql).conn, stamped, texts)
  {
    if !IsSelectOne(sql) {
      ControlSwitchesNothing(sql);
      if UseTarget(sql).Some? {
        AcceptedMeansOk(h, c.user, sql, w.dbs);
      }
    }
  }

  /** As long as every `USE` of another database is accepted, the reply in a live cache belongs to the current one. */
  lemma {:induction false} StampIsCurrent(h: Host, s: Server, es: seq<Event>, who: nat, texts: set<string>)
    requires UsesAreOrdinary(h, texts) && NoCollision(h, texts) && OrdinaryRun(h, s, es, texts)
    requires SwitchesAccepted(h, s, es) && s.conns == map[]
    ensures InPlace(h, ConnOf(h, Run(h, s, es), who), StampedDb(h, s, es, who), texts)
  {
    if es != [] {
      var front, e := es[..|es| - 1], es[|es| - 1];
      var before := Run(h, s, front);
      StampIsCurrent(h, s, front, who, texts);
      if e.Query? && e.who == who {
        QueryKeepsInPlace(h, before.world, ConnOf(h, before, who), e.sql, StampedDb(h, s, front, who), texts);
      }
    }
  }

  /** After any interleaving in which every `USE` of another database was accepted, a read-only text answered from the
      cache gets exactly what executing it now would reply. */
  lemma HitsAreFresh(h: Host, s: Server, es: seq<Event>, who: nat, q: string, texts: set<string>)
    requires UsesAreOrdinary(h, texts) && NoCollision(h, texts) && OrdinaryRun(h, s, es, texts)
    requires SwitchesAccepted(h, s, es)
    requires s.conns == map[] && q in texts && IsReadOnly(h, q)
    ensures
      var now := Run(h, s, es);
      var step := QueryStep(h, now.world, ConnOf(h, now, who), q);
      step.hit ==>
        var out := Execute(h, h.login(who), q, DbFor(q, ConnOf(h, now, who).currentDb), now.world.dbs);
        step.reply == out.reply && step.world.dbs == out.dbs
  {
    HitsAnswerForStampedDb(h, s, es, who, q, texts);
    StampIsCurrent(h, s, es, who, texts);
  }

  // ----- ROLLBACK -----

  lemma SelectOneIsPlain(sql: string)
    ensures IsSelectOne(sql) ==> ControlOf(sql) == Plain
  {
    if IsSelectOne(sql) {
      var t := Trim(sql);
      var one := "SELECT 1";
      var n := |Lower(t)|;
      assert n == 8 || n == 9;
      assert Lower(t)[7] == Lower(one)[7] && t[7] != ';';
      assert t[..8][7] == t[7];
      assert TrimEndOf(t[..8], ';') == t[..8];
      var u := TrimEndOf(t, ';');
      if n == 8 {
        assert t[..8] == t;
      } else {
        assert Lower(t)[8] == Lower("SELECT 1;")[8];
        assert LowerChar(t[8]) == ';';
      }
      assert u == t[..8] && |Lower(u)| == 8;
      assert |Lower("BEGIN")| == 5 && |Lower("START TRANSACTION")| == 17 && |Lower("COMMIT")| == 6;
      assert Lower(t)[0] == Lower(one)[0] && LowerChar(u[0]) == 's';
      DifferentFirstLetters(u, "ROLLBACK");
    }
  }

  /** Between BEGIN and ROLLBACK this connection sends no BEGIN, COMMIT or ROLLBACK; the others send what they like. */
  predicate NoControlBy(who: nat, es: seq<Event>) {
    forall i :: 0 <= i < |es| && es[i].who == who && es[i].Query? ==> ControlOf(es[i].sql) == Plain
  }

  lemma {:induction false} SnapshotIsKept(h: Host, s: Server, es: seq<Event>, who: nat)
    requires NoControlBy(who, es)
    ensures ConnOf(h, Run(h, s, es), who).txn == ConnOf(h, s, who).txn
  {
    if es != [] {
      SnapshotIsKept(h, s, es[..|es| - 1], who);
    }
  }

  /**
   Whatever anyone did in between, ROLLBACK gives every database that was there at BEGIN and still is
   its tables of then, and leaves the databases created since as they are.
   */
  lemma RollbackRestores(h: Host, s: Server, who: nat, begin: string, es: seq<Event>, rollback: string)
    requires ControlOf(begin) == Begin && ControlOf(rollback) == Rollback && NoControlBy(who, es)
    ensures
      var mid := Run(h, Next(h, s, Query(who, begin)), es);
      var after := Next(h, mid, Query(who, rollback)).world.dbs;
      && after.Keys == mid.world.dbs.Keys
      && forall d :: d in after ==> after[d] == if d in s.world.dbs then s.world.dbs[d] else mid.world.dbs[d]
  {
    SelectOneIsPlain(begin);
    SelectOneIsPlain(rollback);
    var begun := Next(h, s, Query(who, begin));
    assert ConnOf(h, begun, who).txn == Some(s.world.dbs);
    SnapshotIsKept(h, begun, es, who);
  }

  // ----- Where the cache goes wrong -----

  /** A text sent twice in a row is answered from the cache the second time exactly when the first reply is no error:
      a write sent twice then happens once, whatever executing it again would have changed. */
  lemma RepeatIsAHit(h: Host, w: World, c: Conn, sql: string)
    requires ControlOf(sql) == Plain && !IsSelectOne(sql) && h.hash(sql) != c.l0Hash
    ensures
      var first := QueryStep(h, w, c, sql);
      var second := QueryStep(h, first.world, first.conn, sql);
      var again := Execute(h, c.user, sql, first.conn.currentDb, first.world.dbs);
      && (second.hit <==> !first.reply.ErrReply?)
      && (second.hit ==> second.world == first.world && second.reply == first.reply)
      && (second.world.dbs == again.dbs <==> first.reply.ErrReply? || again.dbs == first.world.dbs)
  {
    assert DbFor(sql, DbFor(sql, c.currentDb)) == DbFor(sql, c.currentDb);
  }

  /** The cache of this connection holds what `q` gives now. */
  predicate Caches(h: Host, w: World, c: Conn, q: string) {
    && ControlOf(q) == Plain && !IsSelectOne(q) && UseTarget(q).None?
    && h.hash(q) == c.l0Hash && c.l0Gen == w.gen && c.l0Reply == Some(Execute(h, c.user, q, c.currentDb, w.dbs).reply)
  }

  /** A `USE` switches the database in any case, but the cache only when it is accepted. For a cached text whose reply
      differs between the two databases, the next reply is right if and only if the `USE` is accepted. */
  lemma FailedSwitchServesOldRows(h: Host, w: World, c: Conn, use: string, q: string)
    requires UsesAreOrdinary(h, {use}) && UseTarget(use).Some? && h.hash(use) != h.hash(q) && Caches(h, w, c, q)
    requires Execute(h, c.user, q, UseTarget(use), w.dbs).reply != Execute(h, c.user, q, c.currentDb, w.dbs).reply
    ensures
      var switched := QueryStep(h, w, c, use);
      var step := QueryStep(h, switched.world, switched.conn, q);
      && switched.conn.currentDb == UseTarget(use) && switched.world.dbs == w.dbs
      && (step.reply == Execute(h, c.user, q, switched.conn.currentDb, switched.world.dbs).reply
          <==> IsAccepted(h, c.user, use, w.dbs))
      && (step.hit <==> !IsAccepted(h, c.user, use, w.dbs))
  {
    ControlSwitchesNothing(use);
    SelectOneSwitchesNothing(use);
    AcceptedMeansOk(h, c.user, use, w.dbs);
  }

  /** A change that leaves the generation as it was leaves the caches as they were. */
  lemma QuietChangeServesOldRows(h: Host, w: World, dbs: Catalog, c: Conn, q: string)
    requires Caches(h, w, c, q)
    ensures QueryStep(h, World(dbs, w.gen), c, q).hit
  {
  }

  lemma SelectOneSwitchesNothing(sql: string)
    ensures UseTarget(sql).Some? ==> !IsSelectOne(sql)
  {
    var t := Trim(sql);
    if UseTarget(sql).Some? {
      assert Lower(t[..4])[0] == Lower("USE ")[0];
      DifferentFirstLetters(t, "SELECT 1");
      DifferentFirstLetters(t, "SELECT 1;");
    }
  }

  datatype TableName = TableName(db: string, table: string)

  /** DROP TABLE with several names: tables go one by one, and the first missing one ends the statement. */
  function DropTables(names: seq<TableName>, ifExists: bool, dbs: Catalog): Outcome {
    if names == [] then Outcome(dbs, OkReply(0, 0), 1)
    else
      var n := names[0];
      if n.db in dbs && n.table in dbs[n.db] then
        DropTables(names[1..], ifExists, dbs[n.db := dbs[n.db] - {n.table}])
      else if ifExists then DropTables(names[1..], ifExists, dbs)
      else Outcome(dbs, ErrReply(if n.db in dbs then 1051 else 1049), 0)
  }

  predicate HasTable(dbs: Catalog, n: TableName) {
    n.db in dbs && n.table in dbs[n.db]
  }

  function Dropped(dbs: Catalog, n: TableName): Catalog
    requires HasTable(dbs, n)
  {
    dbs[n.db := dbs[n.db] - {n.table}]
  }

  /** How many of the names, from the first on, are tables that exist when their turn comes. */
  function PresentPrefix(names: seq<TableName>, dbs: Catalog): (k: nat)
    ensures k <= |names|
  {
    if names == [] || !HasTable(dbs, names[0]) then 0 else 1 + PresentPrefix(names[1..], Dropped(dbs, names[0]))
  }

  lemma {:induction false} DropOnlyRemoves(names: seq<TableName>, dbs: Catalog, n: TableName)
    requires !HasTable(dbs, n)
    ensures !HasTable(DropTables(names, false, dbs).dbs, n)
  {
    if names != [] && HasTable(dbs, names[0]) {
      DropOnlyRemoves(names[1..], dbs[names[0].db := dbs[names[0].db] - {names[0].table}], n);
    }
  }

  /** A DROP fails, having changed the catalogue unseen, exactly when a table is missing at its turn after one was
      there. */
  lemma {:induction false} DropStopsMidway(names: seq<TableName>, dbs: Catalog)
    ensures
      var out := DropTables(names, false, dbs);
      var k := PresentPrefix(names, dbs);
      && (out.reply.ErrReply? && out.bumps == 0 && out.dbs != dbs <==> 0 < k < |names|)
      && (out.reply.ErrReply? <==> k < |names|)
      && (out.bumps == 0 <==> k < |names|)
  {
    if names != [] && HasTable(dbs, names[0]) {
      var dbs' := Dropped(dbs, names[0]);
      DropStopsMidway(names[1..], dbs');
      assert !HasTable(dbs', names[0]);
      DropOnlyRemoves(names[1..], dbs', names[0]);
      assert DropTables(names, false, dbs).dbs != dbs;
    }
  }

  /** The text is one statement with this outcome, and it is this connection's turn to have it executed. */
  predicate Runs(h: Host, w: World, c: Conn, sql: string, out: Outcome) {
    && !IsSelectOne(sql) && ControlOf(sql) == Plain && UseTarget(sql).None? && h.hash(sql) != c.l0Hash
    && h.builtin(sql, c.currentDb, w.dbs).None? && h.parse(sql) == Some([Other(sql)])
    && h.deny(c.user, sql, c.currentDb).None? && h.exec(sql, c.currentDb, w.dbs) == out
  }

  lemma OneStatement(h: Host, w: World, c: Conn, sql: string, out: Outcome)
    requires Runs(h, w, c, sql, out)
    ensures
      var bumps := out.bumps + (if out.reply.OkReply? then 1 else 0);
      && Execute(h, c.user, sql, c.currentDb, w.dbs) == Executed(out.dbs, out.reply, bumps)
      && QueryStep(h, w, c, sql).world == World(out.dbs, Bump(w.gen, bumps))
  {
    var stmts := [Other(sql)];
    assert stmts[..|stmts| - 1] == [] && EffectiveDb(stmts, c.currentDb) == c.currentDb;
    assert ExecuteBatch(h, [], c.currentDb, w.dbs) == Executed(w.dbs, OkReply(0, 0), 0);
    assert Execute(h, c.user, sql, c.currentDb, w.dbs) == ExecuteBatch(h, stmts, c.currentDb, w.dbs);
  }

  /** A statement that bumps only when it ends in OK: its failure leaves the caches of others as they were. */
  lemma FailureServesOldRows(h: Host, w: World, other: Conn, sql: string, out: Outcome, c: Conn, q: string)
    requires Runs(h, w, other, sql, out) && Caches(h, w, c, q) && w.gen + 2 < TWO_64
    requires !out.reply.RowsReply? && out.bumps == (if out.reply.OkReply? then 1 else 0)
    requires Execute(h, c.user, q, c.currentDb, out.dbs).reply != Execute(h, c.user, q, c.currentDb, w.dbs).reply
    ensures
      var after := QueryStep(h, w, other, sql).world;
      var step := QueryStep(h, after, c, q);
      && after.dbs == out.dbs && (step.hit <==> out.reply.ErrReply?)
      && (step.reply == Execute(h, c.user, q, c.currentDb, out.dbs).reply <==> out.reply.OkReply?)
  {
    OneStatement(h, w, other, sql, out);
    if out.reply.ErrReply? {
      QuietChangeServesOldRows(h, w, out.dbs, c, q);
    }
  }

  /** A statement that ends in OK is seen, and no cache answers for what it changed: every cached text is executed anew
      and gets what it gives now. */
  lemma OkIsSeen(h: Host, w: World, other: Conn, sql: string, out: Outcome, c: Conn, q: string)
    requires Runs(h, w, other, sql, out) && out.reply.OkReply?
    requires Caches(h, w, c, q) && w.gen + out.bumps + 1 < TWO_64
    ensures IsSeen(h, other.user, sql, other.currentDb, w.dbs)
    ensures
      var after := QueryStep(h, w, other, sql).world;
      var step := QueryStep(h, after, c, q);
      after.dbs == out.dbs && !step.hit && step.reply == Execute(h, c.user, q, c.currentDb, after.dbs).reply
  {
    OneStatement(h, w, other, sql, out);
  }

  /** A statement sent as a text that names one table; TRUNCATE bumps by itself as well. */
  function OnTable(n: TableName, st: TableRuns.Statement, affected: nat, lastId: nat, dbs: Catalog): Outcome {
    if n.db !in dbs then Outcome(dbs, ErrReply(1049), 0)
    else if n.table !in dbs[n.db] then Outcome(dbs, ErrReply(1146), 0)
    else
      var after := TableRuns.Step(dbs[n.db][n.table], st);
      Outcome(dbs[n.db := dbs[n.db][n.table := after]], OkReply(affected, lastId), if st.TruncateTable? then 1 else 0)
  }

  /** INSERT, REPLACE, UPDATE, DELETE and TRUNCATE are seen whatever they do to the table, and every cached text is then
      answered from the table they leave. */
  lemma StatementIsSeen(h: Host, w: World, other: Conn, sql: string, n: TableName, st: TableRuns.Statement,
                        affected: nat, lastId: nat, c: Conn, q: string)
    requires !st.AlterTable? && !st.InsertBound? && !st.DeleteBound?
    requires Runs(h, w, other, sql, OnTable(n, st, affected, lastId, w.dbs)) && Caches(h, w, c, q)
    requires w.gen + 2 < TWO_64
    ensures IsSeen(h, other.user, sql, other.currentDb, w.dbs)
    ensures
      var after := QueryStep(h, w, other, sql).world;
      var step := QueryStep(h, after, c, q);
      && step.reply == Execute(h, c.user, q, c.currentDb, after.dbs).reply
      && (step.hit <==> !HasTable(w.dbs, n))
      && (HasTable(w.dbs, n) ==>
            HasTable(after.dbs, n) && after.dbs[n.db][n.table] == TableRuns.Step(w.dbs[n.db][n.table], st))
  {
    var out := OnTable(n, st, affected, lastId, w.dbs);
    OneStatement(h, w, other, sql, out);
    if HasTable(w.dbs, n) {
      OkIsSeen(h, w, other, sql, out, c, q);
    } else {
      QuietChangeServesOldRows(h, w, w.dbs, c, q);
    }
  }

  lemma {:induction false} DropBumpsOnOk(names: seq<TableName>, ifExists: bool, dbs: Catalog)
    ensures
      var out := DropTables(names, ifExists, dbs);
      !out.reply.RowsReply? && out.bumps == (if out.reply.OkReply? then 1 else 0)
  {
    if names != [] {
      var n := names[0];
      DropBumpsOnOk(names[1..], ifExists, if HasTable(dbs, n) then Dropped(dbs, n) else dbs);
    }
  }

  /** A DROP is seen to change what it changes, unless it stops midway. */
  lemma {:induction false} DropIsSeen(h: Host, w: World, c: Conn, drop: string, names: seq<TableName>)
    requires Runs(h, w, c, drop, DropTables(names, false, w.dbs))
    ensures IsSeen(h, c.user, drop, c.currentDb, w.dbs) <==> !(0 < PresentPrefix(names, w.dbs) < |names|)
  {
    DropStopsMidway(names, w.dbs);
    DropBumpsOnOk(names, false, w.dbs);
    OneStatement(h, w, c, drop, DropTables(names, false, w.dbs));
  }

  /** After one connection's DROP, a cached text to which the dropped tables matter is answered rightly on another if
      and only if every table was there at its turn. */
  lemma {:induction false} DropMidwayServesOldRows(h: Host, w: World, other: Conn, drop: string,
                                                   names: seq<TableName>, c: Conn, q: string)
    requires Runs(h, w, other, drop, DropTables(names, false, w.dbs)) && Caches(h, w, c, q) && w.gen + 2 < TWO_64
    requires Execute(h, c.user, q, c.currentDb, DropTables(names, false, w.dbs).dbs).reply
             != Execute(h, c.user, q, c.currentDb, w.dbs).reply
    ensures
      var after := QueryStep(h, w, other, drop).world;
      var step := QueryStep(h, after, c, q);
      && (step.reply == Execute(h, c.user, q, c.currentDb, after.dbs).reply
          <==> PresentPrefix(names, w.dbs) == |names|)
      && (step.hit <==> PresentPrefix(names, w.dbs) < |names|)
  {
    DropStopsMidway(names, w.dbs);
    DropBumpsOnOk(names, false, w.dbs);
    FailureServesOldRows(h, w, other, drop, DropTables(names, false, w.dbs), c, q);
  }

  /** ALTER TABLE on one table of the catalogue. */
  function AlterTable(n: TableName, ops: seq<AlterOp>, dbs: Catalog): Outcome {
    if n.db !in dbs then Outcome(dbs, ErrReply(1049), 0)
    else if n.table !in dbs[n.db] then Outcome(dbs, ErrReply(1146), 0)
    else
      var out := AlterAll(dbs[n.db][n.table], ops);
      var dbs' := dbs[n.db := dbs[n.db][n.table := out.view]];
      if out.error.Some? then Outcome(dbs', ErrReply(out.error.value), 0) else Outcome(dbs', OkReply(0, 0), 1)
  }

  /** The table is there and every operation can be done. */
  predicate Alters(n: TableName, ops: seq<AlterOp>, dbs: Catalog) {
    HasTable(dbs, n) && DoneOps(dbs[n.db][n.table], ops) == |ops|
  }

  /** An ALTER is seen to change what it changes, unless an operation fails after others that changed the table. */
  lemma {:induction false} AlterIsSeen(h: Host, w: World, c: Conn, alter: string, n: TableName, ops: seq<AlterOp>)
    requires Runs(h, w, c, alter, AlterTable(n, ops, w.dbs))
    ensures IsSeen(h, c.user, alter, c.currentDb, w.dbs)
            <==> (HasTable(w.dbs, n) && !Alters(n, ops, w.dbs) ==>
                    var v := w.dbs[n.db][n.table];
                    AlterAll(v, ops[..DoneOps(v, ops)]).view == v)
  {
    OneStatement(h, w, c, alter, AlterTable(n, ops, w.dbs));
    if HasTable(w.dbs, n) {
      var v := w.dbs[n.db][n.table];
      AlterStopsMidway(v, ops);
      var dbs' := AlterTable(n, ops, w.dbs).dbs;
      assert dbs'[n.db][n.table] == AlterAll(v, ops).view;
      if AlterAll(v, ops).view == v {
        assert w.dbs[n.db][n.table := v] == w.dbs[n.db];
        assert dbs' == w.dbs;
      }
    }
  }

  /** After one connection's ALTER, a cached text to which the change matters is answered rightly on another if and only
      if the table was there and every operation could be done. */
  lemma {:induction false} AlterMidwayServesOldRows(h: Host, w: World, other: Conn, alter: string,
                                                    n: TableName, ops: seq<AlterOp>, c: Conn, q: string)
    requires Runs(h, w, other, alter, AlterTable(n, ops, w.dbs)) && Caches(h, w, c, q) && w.gen + 2 < TWO_64
    requires Execute(h, c.user, q, c.currentDb, AlterTable(n, ops, w.dbs).dbs).reply
             != Execute(h, c.user, q, c.currentDb, w.dbs).reply
    ensures
      var after := QueryStep(h, w, other, alter).world;
      var step := QueryStep(h, after, c, q);
      && (step.reply == Execute(h, c.user, q, c.currentDb, after.dbs).reply <==> Alters(n, ops, w.dbs))
      && (step.hit <==> !Alters(n, ops, w.dbs))
  {
    if HasTable(w.dbs, n) {
      AlterStopsMidway(w.dbs[n.db][n.table], ops);
    }
    FailureServesOldRows(h, w, other, alter, AlterTable(n, ops, w.dbs), c, q);
  }
}
