/** A unit of web work: the record every other component passes around. */
module Requests {

  /** A reading of the steady clock. The model never looks inside it: it is
      handed in by the caller wherever the code reads the clock. */
  type TimePoint = int

  /** The six fields of a request. `priority` (documented as 1-10) and
      `requestType` are carried along but no policy ever reads them; no field
      is range-checked. The constructor of this datatype is the parameterised
      constructor: it stores every argument exactly as given. */
  datatype Request = Request(
    clientIP: string,
    requestType: string,
    priority: int,
    processingTime: int,      // remaining cost, in clock cycles
    arrivalTime: TimePoint,
    requestID: int)

  /** The default constructor, which also serves as the "empty request"
      sentinel of the admission queue. */
  function DefaultRequest(now: TimePoint): (r: Request)
    ensures r.clientIP == "0.0.0.0" && r.requestType == "GET"
    ensures r.priority == 5 && r.processingTime == 10 && r.requestID == 0
    ensures r.arrivalTime == now
  {
    Request("0.0.0.0", "GET", 5, 10, now, 0)
  }

  /** setProcessingTime, the only mutator: the new cost is stored and every
      other field is left as it was. */
  function WithProcessingTime(r: Request, time: int): (r': Request)
    ensures r'.processingTime == time
    ensures r'.clientIP == r.clientIP && r'.requestType == r.requestType
    ensures r'.priority == r.priority && r'.arrivalTime == r.arrivalTime
    ensures r'.requestID == r.requestID
    ensures time == r.processingTime ==> r' == r
  {
    r.(processingTime := time)
  }
}
