/** db/memtable with one writer and concurrent readers: a read that runs beside `Add` sees the writes that were
    published at level 0 of the list before its last pointer read, and those alone. */
module MemTableRace {
  import opened Bytes
  import Coding
  import opened DbFormat
  import opened KeyOrder
  import opened MemTable
  import R = SkipListRace

  /** What the search of `Get` makes of the node that it found. */
  function Interpret(keys: seq<Entry>, answer: Option<R.Id>, user: Bytes): ReadResult {
    match answer
    case None => Missing
    case Some(x) =>
      if x >= |keys| || UserKey(KeyPart(keys[x])) != user then Missing
      else if Tag(KeyPart(keys[x])) % 256 == TYPE_VALUE then
        if ValuePart(keys[x]).Some? then Found(ValuePart(keys[x]).value) else Garbled
      else if Tag(KeyPart(keys[x])) % 256 == TYPE_DELETION then Deleted
      else Missing
  }

  /** In every interleaving in which the keys published so far are the entries of `log`: the last read of a search
      for (user, s) decides as a sequential read after exactly these writes would. */
  lemma ConcurrentGet(cmp: Comparator<Bytes>, zero: Entry, readers: nat, actions: seq<R.Action<Entry>>, log: seq<Write>,
                      r: nat, user: Bytes, s: nat)
    requires TotalOrder(cmp) && AllValid(log) && s <= MAX_SEQUENCE && |user| + 8 < Coding.TWO_32
    requires R.Insertions(EntryOrder(cmp), R.Initial(zero, readers), actions) == Entries(log)
    requires R.AboutToFinish(EntryOrder(cmp), R.Run(EntryOrder(cmp), R.Initial(zero, readers), actions), r)
    requires R.Run(EntryOrder(cmp), R.Initial(zero, readers), actions).readers[r].goal == R.AtOrAfter(Target(user, s))
    ensures var state := R.Run(EntryOrder(cmp), R.Initial(zero, readers), actions);
      var after := R.Step(EntryOrder(cmp), state, R.Read(r)).readers[r];
      && after.Done?
      && Interpret(state.keys, after.result, user) == ReadAt(log, user, s)
      && RightAnswer(log, user, s, Interpret(state.keys, after.result, user))
  {
    hide *;
    ReadAtIsRight(log, user, s);
    EntryOrderIsPreorder(cmp);
    R.InitialInv(EntryOrder(cmp), zero, readers);
    R.RunKeepsInv(EntryOrder(cmp), R.Initial(zero, readers), actions);
    R.RunIsSequentialList(EntryOrder(cmp), zero, readers, actions);
    var state := R.Run(EntryOrder(cmp), R.Initial(zero, readers), actions);
    R.AnswerIsRight(EntryOrder(cmp), state, r);
    AnswerDecides(cmp, state.keys, state.levels[0], log, user, s);
  }

  /** What stands in the level-0 list decides the read. */
  lemma AnswerDecides(cmp: Comparator<Bytes>, keys: seq<Entry>, ids: seq<R.Id>, log: seq<Write>, user: Bytes, s: nat)
    requires TotalOrder(cmp) && AllValid(log) && s <= MAX_SEQUENCE && |user| + 8 < Coding.TWO_32
    requires R.IdsFit(ids, |keys|) && R.KeysIn(keys, ids) == InsertAll(EntryOrder(cmp), Entries(log))
    ensures Interpret(keys, R.AnswerIn(EntryOrder(cmp), keys, ids, R.AtOrAfter(Target(user, s))), user)
         == ReadAt(log, user, s)
  {
    var sorted := R.KeysIn(keys, ids);
    var n := LowerBound(EntryOrder(cmp), sorted, Target(user, s));
    AnswerIs(EntryOrder(cmp), keys, ids, Target(user, s));
    FoundDecides(cmp, log, KeyAt(sorted, n), user, s);
    hide EntryOrder, Target, InsertAll, Entries, LowerBound, ReadAt, KeyPart, ValuePart, UserKey, Tag, TotalOrder,
      AllValid, R.AnswerIn, R.KeysIn;
  }

  lemma AnswerIs(cmp: Comparator<Entry>, keys: seq<Entry>, ids: seq<R.Id>, target: Entry)
    requires R.IdsFit(ids, |keys|)
    ensures var n := LowerBound(cmp, R.KeysIn(keys, ids), target);
      && R.AnswerIn(cmp, keys, ids, R.AtOrAfter(target)) == (if n < |ids| then Some(ids[n]) else None)
      && KeyAt(R.KeysIn(keys, ids), n) == (if n < |ids| then Some(keys[ids[n]]) else None)
      && (n < |ids| ==> ids[n] < |keys|)
  {
    hide LowerBound;
  }
}
