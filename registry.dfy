/** The action registry: every call of an agent method wrapped by
    `register_action` appends one record, under the call's query, to a
    module-wide dictionary from queries to lists of records. Timestamps and
    elapsed times are not modelled. */
module Registry {
  import opened Wrappers

  /** One registry entry. `tokenCount` is the usage metadata the wrapped
      method returned beside its response. */
  datatype Record = Record(
    action: string,
    className: string,
    functionName: string,
    message: Option<string>,
    response: string,
    tokenCount: nat)

  /** The records of `query`, `[]` for a query never seen. */
  function ActionsOf(log: map<string, seq<Record>>, query: string): (r: seq<Record>)
    ensures query !in log ==> r == []
  {
    if query in log then log[query] else []
  }

  /** The log after appending `rec` under `query`, creating the list when
      the query is new. */
  function Appended(log: map<string, seq<Record>>, query: string, rec: Record): map<string, seq<Record>>
  {
    log[query := ActionsOf(log, query) + [rec]]
  }

  /** Appending adds exactly one record, at the end of the query's own
      list, and leaves every other query's list as it was. */
  lemma AppendedActions(log: map<string, seq<Record>>, query: string, rec: Record, other: string)
    ensures ActionsOf(Appended(log, query, rec), query) == ActionsOf(log, query) + [rec]
    ensures other != query ==> ActionsOf(Appended(log, query, rec), other) == ActionsOf(log, other)
    ensures Appended(log, query, rec).Keys == log.Keys + {query}
  {
  }

  /** The record the wrapper builds for one call: the decorator's action
      name, the object's class and the method's name; a message only when
      the object can format one for the query. */
  function MakeRecord(action: string, className: string, functionName: string,
                      messageFormat: Option<string -> string>, query: string,
                      result: (string, nat)): (r: Record)
    ensures r.action == action && r.className == className && r.functionName == functionName
    ensures r.message.Some? <==> messageFormat.Some?
    ensures r.response == result.0 && r.tokenCount == result.1
  {
    var message := if messageFormat.Some? then Some(messageFormat.value(query)) else None;
    Record(action, className, functionName, message, result.0, result.1)
  }

  class ActionRegistry {
    /** `action_registry`. */
    var log: map<string, seq<Record>>

    constructor ()
      ensures log == map[]
    {
      log := map[];
    }

    /** The wrapper `register_action` puts around an agent method: runs the
        method (`call`, from the query to its response and usage), logs one
        record under the query and hands back only the response. */
    method Invoke(action: string, className: string, functionName: string,
                  messageFormat: Option<string -> string>, call: string -> (string, nat), query: string)
      returns (response: string)
      modifies this
      ensures response == call(query).0
      ensures log == Appended(old(log), query, MakeRecord(action, className, functionName, messageFormat, query, call(query)))
    {
      var result := call(query);
      var message: Option<string> := None;
      if messageFormat.Some? {
        message := Some(messageFormat.value(query));
      }
      var rec := Record(action, className, functionName, message, result.0, result.1);
      if query !in log {
        log := log[query := []];
      }
      log := log[query := log[query] + [rec]];
      response := result.0;
    }

    /** `get_actions_for_query`. */
    method ActionsForQuery(query: string) returns (r: seq<Record>)
      ensures r == ActionsOf(log, query)
    {
      r := if query in log then log[query] else [];
    }

    /** `get_all_actions`. */
    method AllActions() returns (r: map<string, seq<Record>>)
      ensures r == log
    {
      r := log;
    }

    /** `clear_registry`: no query has a record afterwards. */
    method Clear()
      modifies this
      ensures log == map[]
      ensures forall q :: ActionsOf(log, q) == []
    {
      log := map[];
    }
  }
}
