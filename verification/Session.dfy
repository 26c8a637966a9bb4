/** A whole measurement: the client's queries, the stub server's answers, and the client's credits. */
module Session {
  import opened Bytes
  import opened Queries
  import StubServer = Answer
  import Client = Probe
  import Codec
  import IdReuse

  /** Every answer that arrives is what the stub server replies to the prepared query that owns it. */
  predicate Served(es: seq<Client.Event>, owners: seq<nat>, strings: seq<seq<byte>>, client: ClientId)
    requires strings != []
  {
    |owners| == |es| && forall i | 0 <= i < |es| && es[i].Answer? ::
      FromServer(es[i].id, Prepared(strings, owners[i], client))
  }

  /** The id is the one that the client reads from the reply to this query. */
  predicate FromServer(id: u16, query: seq<byte>) {
    var r := StubServer.Reply(query);
    r.Some? && |r.value| >= 2 && id == ReadBe16(r.value, 0)
  }

  /** The stub server sends the ids back. */
  lemma ServedKeepsIds(es: seq<Client.Event>, owners: seq<nat>, strings: seq<seq<byte>>, client: ClientId)
    requires strings != [] && (forall s | s in strings :: Terminated(s)) && Served(es, owners, strings, client)
    ensures IdReuse.KeptIds(es, owners)
  {
    hide StubServer.Reply, QueryBytes, Terminated;
    forall i | 0 <= i < |es| && es[i].Answer?
      ensures es[i].id == IdReuse.IdOf(owners[i])
    {
      Codec.AlwaysAnswered(owners[i], strings[Index(owners[i], |strings|)], client);
      assert FromServer(es[i].id, Prepared(strings, owners[i], client));
    }
  }

  /** Any run of the client against the stub server, over a network that neither makes up answers nor repeats
      them: it is honest, so it does not fail, every answer is credited, and with each id the first queries are the
      answered ones. */
  lemma ServedRun(s: Client.State, interval: nat, es: seq<Client.Event>, owners: seq<nat>,
                  strings: seq<seq<byte>>, client: ClientId)
    requires strings != [] && (forall s | s in strings :: Terminated(s)) && Served(es, owners, strings, client)
    requires Client.Initial(s) && Client.Sized(s) && Client.Clocked(es) && IdReuse.Timely(s, interval, es, owners)
    ensures IdReuse.Honest(s, interval, es, owners) && Client.Run(s, interval, es).Some?
    ensures var t, delivered := Client.Run(s, interval, es).value, IdReuse.Delivered(es, owners);
            && IdReuse.InTurn(t, delivered) && t.received == |delivered| && IdReuse.AnsweredLater(t)
  {
    hide Served, Client.Run, Client.Clocked, IdReuse.InTurn;
    ServedKeepsIds(es, owners, strings, client);
    IdReuse.HonestRun(s, interval, es, owners);
  }
}
