/**
 * The connection schedule: the back-off between the first connect attempts
 * (init_mosquitto) and the subscribe requests made once connected
 * (connect_callback).
 */
module Connection {
  import opened Wrappers

  /** The keep-alive interval, in seconds, every connect attempt asks for. */
  const KEEPALIVE: int := 10

  /** One mosquitto_connect call: broker host (possibly unset), port and keep-alive. */
  datatype ConnectRequest = ConnectRequest(host: Option<string>, port: int, keepalive: int)

  /** One mosquitto_subscribe call: a topic and its QoS. */
  datatype Subscribe = Subscribe(topic: string, qos: int)

  function Pow2(k: nat): (p: nat)
    ensures p >= 1
  {
    if k == 0 then 1 else 2 * Pow2(k - 1)
  }

  lemma {:induction false} Pow2Monotone(j: nat, k: nat)
    requires j <= k
    ensures Pow2(j) <= Pow2(k)
    decreases k
  {
    if j < k {
      Pow2Monotone(j, k - 1);
    }
  }

  /**
   * The sleep after failed attempt number k (from 0): the delay starts at one
   * second and doubles while it is below 60.
   */
  function Delay(k: nat): int
    decreases k
  {
    if k == 0 then 1
    else
      var p := Delay(k - 1);
      if p < 60 then p * 2 else p
  }

  /** The delays run 1, 2, 4, ..., 32, 64 and then stay at 64. */
  lemma {:induction false} DelayClosedForm(k: nat)
    ensures Delay(k) == if k < 7 then Pow2(k) else 64
    decreases k
  {
    if k > 0 {
      DelayClosedForm(k - 1);
      if k <= 6 {
        Pow2Monotone(k - 1, 5);
      }
    }
  }

  /** The back-off never exceeds 64 seconds and never shrinks. */
  lemma DelayBounds(j: nat, k: nat)
    requires j <= k
    ensures 1 <= Delay(j) <= Delay(k) <= 64
  {
    DelayClosedForm(j);
    DelayClosedForm(k);
    if k < 7 {
      Pow2Monotone(j, k);
      Pow2Monotone(k, 6);
    } else if j < 7 {
      Pow2Monotone(j, 6);
    }
  }
}
