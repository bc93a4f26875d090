/** The protocol messages that agents exchange; payloads and schema validation are not modelled. */
module Protocol {
  import opened Wrappers

  datatype Status = Success | Error

  datatype Message =
    | TaskRequest(id: string, traceId: string, sender: string, to: Option<string>, capability: string,
                  timestamp: string)
    | Delegation(id: string, traceId: string, sender: string, to: Option<string>, capability: string,
                 timestamp: string, parentId: string)
    | TaskResponse(id: string, traceId: string, sender: string, inReplyTo: string, status: Status, timestamp: string)
    | CapabilityQuery(id: string, traceId: string, sender: string, capability: string)
}
