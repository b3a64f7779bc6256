/**
 The workers of db_workers.c that drain a channel into a table.
 */
module DbWorkers {
  import opened Bytes
  import opened ChannelProtocol

  const COMMIT_FREQ: nat := 4096

  /** What a channel carries from the first row to ch_finish. */
  function Sent<T>(rows: seq<T>): seq<Option<T>> {
    if rows == [] then [None] else [Some(rows[0])] + Sent(rows[1..])
  }

  /** So a table drained after ch_finish is exactly the rows sent, in order. */
  lemma {:induction false} SentArrives<T>(rows: seq<T>)
    ensures BeforeEnd(Sent(rows)) == rows
  {
    if rows == [] {
    } else {
      SentArrives(rows[1..]);
      assert Sent(rows)[1..] == Sent(rows[1..]);
    }
  }

  class Table<T> {
    var committed: seq<T>
    var pending: seq<T>   // inserted in the open transaction
    var commits: nat

    constructor ()
      ensures committed == [] && pending == [] && commits == 0
    {
      committed, pending, commits := [], [], 0;
    }

    method Insert(row: T)
      modifies this
      ensures committed == old(committed) && pending == old(pending) + [row] && commits == old(commits)
    {
      pending := pending + [row];
    }

    method Commit()
      modifies this
      ensures committed == old(committed) + old(pending) && pending == [] && commits == old(commits) + 1
    {
      committed, pending, commits := committed + pending, [], commits + 1;
    }

    /** wrk_insert_mem: insert until the end marker, committing every COMMIT_FREQ rows and at the end. */
    method Drain(messages: seq<Option<T>>)
      requires exists i :: 0 <= i < |messages| && messages[i].None?
      requires pending == []
      modifies this
      ensures committed == old(committed) + BeforeEnd(messages) && pending == []
      ensures commits == old(commits) + |BeforeEnd(messages)| / COMMIT_FREQ + 1
    {
      var counter := 0;
      var left := messages;
      while left[0].Some?
        invariant exists i :: 0 <= i < |left| && left[i].None?
        invariant old(committed) + BeforeEnd(messages) == committed + pending + BeforeEnd(left)
        invariant counter == |pending| < COMMIT_FREQ
        invariant |committed| == |old(committed)| + (commits - old(commits)) * COMMIT_FREQ && commits >= old(commits)
        decreases |left|
      {
        ghost var i :| 0 <= i < |left| && left[i].None?;
        assert left[1..][i - 1].None?;
        assert committed + (pending + [left[0].value]) + BeforeEnd(left[1..]) == committed + pending + BeforeEnd(left);
        Insert(left[0].value);
        left := left[1..];
        counter := counter + 1;
        if counter >= COMMIT_FREQ {
          Commit();
          counter := 0;
        }
      }
      Commit();
    }
  }
}
