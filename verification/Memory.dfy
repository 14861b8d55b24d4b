/** The C library's copies, as far as the buffers of this project need them. */
module Memory {

  /** memcpy(dst + at, src, |src|) */
  method Copy<T>(dst: array<T>, at: nat, src: seq<T>)
    requires at + |src| <= dst.Length
    modifies dst
    ensures forall i | 0 <= i < dst.Length :: dst[i] == if at <= i < at + |src| then src[i - at] else old(dst[i])
    ensures dst[..at + |src|] == old(dst[..at]) + src
  {
    forall i | 0 <= i < |src| {
      dst[at + i] := src[i];
    }
  }

  /** memmove(buf, buf + from, n) */
  method MoveDown<T>(buf: array<T>, from: nat, n: nat)
    requires from + n <= buf.Length
    modifies buf
    ensures buf[..n] == old(buf[from..from + n]) && buf[n..] == old(buf[n..])
  {
    forall i | 0 <= i < n {
      buf[i] := buf[i + from];
    }
  }
}
