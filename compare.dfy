/** checkNeedToCopy: is the local copy of a remote file stale? */
module Compare {
  import opened LocalFs
  import opened Remote

  const NanosPerSecond: int := 1_000_000_000

  /** Go's Time.Unix(): whole seconds since the epoch, rounded down (Dafny's
      division by a positive divisor rounds down as well, also before 1970). */
  function UnixSeconds(t: Time): (sec: int)
    ensures sec * NanosPerSecond <= t < (sec + 1) * NanosPerSecond
  {
    t / NanosPerSecond
  }

  /** The local stat result against the remote metadata: copy when the local
      file does not exist, or when its size or its mtime in whole seconds
      differs; never copy when stat fails for another reason. */
  function CheckNeedToCopy(local: StatResult, remote: RemoteEntry): (copy: bool)
    requires remote.File?
    ensures local.NotExist? ==> copy
    ensures local.OtherError? ==> !copy
    ensures local.Found? ==>
      (copy <==> local.info.size != remote.size || UnixSeconds(local.info.mtime) != UnixSeconds(remote.mtime))
  {
    match local
    case NotExist => true
    case OtherError => false
    case Found(info) =>
      if info.size != remote.size then true
      else if UnixSeconds(info.mtime) != UnixSeconds(remote.mtime) then true
      else false
  }

  /** Two times in the same whole second compare equal, whatever their
      nanoseconds. */
  lemma SubSecondIgnored(sec: int, a: int, b: int)
    requires 0 <= a < NanosPerSecond && 0 <= b < NanosPerSecond
    ensures UnixSeconds(sec * NanosPerSecond + a) == sec
    ensures UnixSeconds(sec * NanosPerSecond + a) == UnixSeconds(sec * NanosPerSecond + b)
  {
    assert (sec * NanosPerSecond + a) / NanosPerSecond == sec;
  }

  /** A local file of the right size stamped one second before the remote
      file is stale. */
  lemma OneSecondEarlierIsStale(size: int, t: Time, s: Stream)
    requires 0 <= size
    ensures CheckNeedToCopy(Found(Entry(false, size, t - NanosPerSecond)), File("f", size, t, s))
  {
    assert UnixSeconds(t - NanosPerSecond) == UnixSeconds(t) - 1;
  }
}
