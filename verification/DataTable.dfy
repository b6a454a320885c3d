/** A remote data table that keeps only the newest request's reply. */
module DataTable {
  import opened Text
  import opened Paging

  /** `query` stands for the applied search text and filters. */
  datatype Request<Q> = Request(query: Q, page: int, pageSize: int)

  datatype Reply<R> = Reply(rows: seq<R>, total: nat)

  /** How a load ends: with a reply, or with an error. */
  datatype Outcome<R> = Loaded(reply: Reply<R>) | LoadError(error: string)

  /** The reply that the rows show, with its request and that request's number. */
  datatype Shown<Q, R> = Shown(number: nat, request: Request<Q>, reply: Reply<R>)

  /** What can happen between two awaits; a reply may be late, and may come in any order. */
  datatype Event<Q, R> =
    | UserReloads
    | UserReloadsFirst
    | UserApplies(query: Q)
    | UserResets(defaults: Q)
    | UserChangesPage(target: int)
    | UserChangesPageSize(size: int)
    | Ends(sequence: nat, outcome: Outcome<R>)

  /**
   * The table's refs. Each method runs from one await to the next, so any interleaving of user
   * actions and replies is a sequence of these calls.
   */
  class DataTable<Q(==), R> {
    var query: Q
    var page: int
    var pageSize: int
    var rows: seq<R>
    var total: nat
    var loading: bool
    var loadError: Option<string>
    var requestSequence: nat
    /** Requests without a reply, by sequence number: the promises that are pending. */
    var outstanding: map<nat, Request<Q>>
    ghost var shown: Option<Shown<Q, R>>
    /** For every reply applied so far: the number of its request, and the newest number at that moment. */
    ghost var applied: seq<(nat, nat)>

    function Current(): Request<Q>
      reads this
    {
      Request(query, page, pageSize)
    }

    ghost predicate Valid()
      reads this
    {
      pageSize >= 1 && 1 <= page <= TotalPages(total, pageSize)
      && (forall s :: s in outstanding ==> 1 <= s <= requestSequence)
      && (loading <==> requestSequence in outstanding)
      && (loading ==> outstanding[requestSequence] == Current() && loadError.None?)
      && ShowsReply()
      && (forall i :: 0 <= i < |applied| ==> applied[i].0 == applied[i].1)
      && (requestSequence > 0 && !loading && loadError.None? ==>
          shown.Some? && shown.value.request == Current() && shown.value.number == requestSequence)
    }

    /** The rows and the total are those of the reply applied last; before the first one there are none. */
    ghost predicate ShowsReply()
      reads this
    {
      if shown.None? then applied == [] && rows == [] && total == 0
      else rows == shown.value.reply.rows && total == shown.value.reply.total
           && applied != [] && applied[|applied| - 1].0 == shown.value.number <= requestSequence
    }

    constructor (query: Q, pageSize: int)
      requires pageSize >= 1
      ensures Valid() && Current() == Request(query, 1, pageSize) && requestSequence == 0
    {
      this.query, this.page, this.pageSize := query, 1, pageSize;
      rows, total, loading, loadError, requestSequence := [], 0, false, None, 0;
      outstanding, shown, applied := map[], None, [];
    }

    /** The first part of `reload`: the request becomes the newest one. */
    method Begin() returns (sequence: nat)
      requires pageSize >= 1 && 1 <= page <= TotalPages(total, pageSize)
      requires forall s :: s in outstanding ==> 1 <= s <= requestSequence
      requires ShowsReply() && forall i :: 0 <= i < |applied| ==> applied[i].0 == applied[i].1
      modifies this`requestSequence, this`loading, this`loadError, this`outstanding
      ensures Valid() && loading && sequence == requestSequence == old(requestSequence) + 1
      ensures outstanding == old(outstanding)[sequence := Current()]
    {
      requestSequence := requestSequence + 1;
      sequence := requestSequence;
      loading := true;
      loadError := None;
      outstanding := outstanding[sequence := Current()];
    }

    /** Takes over the rows and the total of a reply to the request with the given number. */
    method ShowReply(ghost sequence: nat, ghost request: Request<Q>, reply: Reply<R>)
      requires sequence <= requestSequence
      modifies this`rows, this`total, this`shown, this`applied
      ensures ShowsReply() && rows == reply.rows && total == reply.total
      ensures shown == Some(Shown(sequence, request, reply))
      ensures applied == old(applied) + [(sequence, requestSequence)]
    {
      rows := reply.rows;
      total := reply.total;
      shown := Some(Shown(sequence, request, reply));
      applied := applied + [(sequence, requestSequence)];
    }

    /**
     * The rest of `reload` once the load ends. Only the newest request has an effect; when its total
     * leaves the page outside the table, the page drops and the load starts again.
     */
    method Settle(sequence: nat, outcome: Outcome<R>)
      requires Valid() && sequence in outstanding
      modifies this
      ensures Valid() && query == old(query) && pageSize == old(pageSize) && requestSequence >= old(requestSequence)
      ensures sequence !in outstanding
      ensures sequence != old(requestSequence) ==>
        page == old(page) && rows == old(rows) && total == old(total) && loading == old(loading)
        && loadError == old(loadError) && requestSequence == old(requestSequence) && shown == old(shown)
        && applied == old(applied)
        && outstanding == old(outstanding) - {sequence}
      ensures sequence == old(requestSequence) ==>
        requestSequence == old(requestSequence) + if loading then 1 else 0
      ensures sequence == old(requestSequence) && outcome.LoadError? ==>
        !loading && loadError == Some(outcome.error) && page == old(page) && rows == old(rows)
          && applied == old(applied)
      ensures sequence == old(requestSequence) && outcome.Loaded? ==>
        shown == Some(Shown(sequence, old(outstanding)[sequence], outcome.reply))
        && applied == old(applied) + [(sequence, old(requestSequence))]
        && page == Smaller(old(page), TotalPages(outcome.reply.total, pageSize))
        && loading == (page < old(page)) && loadError.None?
    {
      hide TotalPages;
      ghost var request := outstanding[sequence];
      outstanding := outstanding - {sequence};
      if sequence != requestSequence { return; }
      match outcome
      case LoadError(error) =>
        loadError := Some(error);
        loading := false;
      case Loaded(reply) =>
        ShowReply(sequence, request, reply);
        var boundedPage := Smaller(page, TotalPages(total, pageSize));
        if boundedPage != page {
          page := boundedPage;
          var again := Begin();
        } else {
          loading := false;
        }
    }

    method Apply(next: Q)
      requires Valid()
      modifies this
      ensures Valid() && loading && Current() == Request(next, 1, pageSize) && pageSize == old(pageSize)
      ensures requestSequence == old(requestSequence) + 1 && shown == old(shown) && applied == old(applied)
    {
      query := next;
      page := 1;
      var sequence := Begin();
    }

    method ReloadFirst()
      requires Valid()
      modifies this
      ensures Valid() && loading && Current() == Request(old(query), 1, old(pageSize))
      ensures requestSequence == old(requestSequence) + 1 && shown == old(shown) && applied == old(applied)
    {
      page := 1;
      var sequence := Begin();
    }

    /** A page outside the table, or the current one, changes nothing. */
    method ChangePage(target: int)
      requires Valid()
      modifies this
      ensures Valid() && query == old(query) && pageSize == old(pageSize) && shown == old(shown)
        && applied == old(applied)
      ensures var bounded := if target < 1 then 1 else target;
        if bounded <= TotalPages(old(total), pageSize) && bounded != old(page)
        then page == bounded && loading && requestSequence == old(requestSequence) + 1
        else page == old(page) && loading == old(loading) && requestSequence == old(requestSequence)
    {
      var bounded := if target < 1 then 1 else target;
      if bounded > TotalPages(total, pageSize) || bounded == page { return; }
      page := bounded;
      var sequence := Begin();
    }

    method ChangePageSize(value: int)
      requires Valid()
      modifies this
      ensures Valid() && query == old(query) && shown == old(shown) && applied == old(applied)
      ensures if value > 0 && value != old(pageSize)
        then pageSize == value && page == 1 && loading && requestSequence == old(requestSequence) + 1
        else pageSize == old(pageSize) && page == old(page) && requestSequence == old(requestSequence)
    {
      if value <= 0 || value == pageSize { return; }
      pageSize := value;
      page := 1;
      var sequence := Begin();
    }

    /**
     * Left alone, a load settles after at most `page` requests, since every repetition lowers the
     * page; the rows are then the server's reply to the current request.
     */
    method AwaitSettled(server: Request<Q> -> Outcome<R>) returns (requests: nat)
      requires Valid() && loading
      modifies this
      ensures Valid() && !loading && query == old(query) && pageSize == old(pageSize)
      ensures page <= old(page) && 1 <= requests <= old(page) - page + 1
      ensures requests == 1 + requestSequence - old(requestSequence)
      ensures server(Current()).Loaded? && loadError.None? ==>
        shown.Some? && shown.value.request == Current() && rows == server(Current()).reply.rows
      ensures loadError.Some? <==> server(Current()).LoadError?
      decreases page
    {
      var request := Current();
      Settle(requestSequence, server(request));
      requests := 1;
      if loading {
        var more := AwaitSettled(server);
        requests := requests + more;
      }
    }

    /**
     * Any interleaving of user actions and replies: afterwards the table loads exactly if its newest
     * request is pending, the page lies in the table, every reply that was applied came from the newest
     * request of its moment, and a settled table shows the reply of the newest request, to the current
     * query and page, unless that request failed.
     */
    method Play(events: seq<Event<Q, R>>)
      requires Valid()
      modifies this
      ensures Valid() && requestSequence >= old(requestSequence)
      ensures 1 <= page <= TotalPages(total, pageSize) && (loading <==> requestSequence in outstanding)
      ensures old(applied) <= applied && forall i :: 0 <= i < |applied| ==> applied[i].0 == applied[i].1
      ensures shown.Some? ==> rows == shown.value.reply.rows && applied[|applied| - 1].0 == shown.value.number
      ensures requestSequence > 0 && !loading && loadError.None? ==>
        shown.Some? && shown.value.request == Current() && shown.value.number == requestSequence
    {
      for i := 0 to |events|
        invariant Valid() && requestSequence >= old(requestSequence) && old(applied) <= applied
      {
        match events[i] {
          case UserReloads => var sequence := Begin();
          case UserReloadsFirst => ReloadFirst();
          case UserApplies(next) => Apply(next);
          case UserResets(defaults) => Apply(defaults);
          case UserChangesPage(target) => ChangePage(target);
          case UserChangesPageSize(size) => ChangePageSize(size);
          case Ends(sequence, outcome) => if sequence in outstanding { Settle(sequence, outcome); }
        }
      }
    }
  }
}
