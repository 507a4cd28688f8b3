/** The server's receive loop: what becomes of one datagram. */
module Listener {
  import opened Bytes
  import opened Request
  import opened WorkQueue

  // Datagrams that cannot be requests are dropped, the others go to the queue as long as it is not over its
  // limit.
  method OnDatagram(queue: CUdpServerQueue<str>, packet: str)
    requires Inv(queue.Value())
    modifies queue
    ensures Inv(queue.Value())
    ensures queue.queue == if (|packet| >= 45 || |packet| == 13) && |old(queue.queue)| <= 30000
                           then old(queue.queue) + [packet] else old(queue.queue)
  {
    if |packet| == 0 { return; }
    if Dropped(|packet|) { return; }
    queue.AddToQueue(packet);
  }
}
