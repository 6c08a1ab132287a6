/** What every part of the system calls by the same name on the radio. */
module Protocol {
  import opened Bytes

  type Uid = s: seq<byte> | |s| == 10 witness Fill(10, 0)
  type Key = k: seq<byte> | |k| == 16 witness Fill(16, 0)

  const SET_COUNT: byte := 1

  const FIRST_NODE_ID: byte := 1
  const LAST_NODE_ID: byte := 99
}
