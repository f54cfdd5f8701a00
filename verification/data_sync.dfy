/** The invalidation message published on the two pub/sub channels
    (`DataSyncMessage`, whose source is not part of this model). The
    message's wire serialization is taken to be the identity: the publish log
    carries message values. */
module DataSync {
  import opened Wrappers
  import opened LocalCacheEntry

  /** The 128-bit instance identifier (`Guid`), abstracted to a number. */
  type InstanceId = nat

  const SyncChannelName := "NewtMultilevelCache_Sync"
  const ClearSyncChannelName := "NewtMultilevelCacheClear_Sync"

  /** `DataSyncMessage`: the sender and, for an update, the slot to invalidate;
      `Create(instanceId)` leaves the slot out (a clear message). */
  datatype DataSyncMessage = DataSyncMessage(senderInstanceId: InstanceId, keyHashSlot: Option<Slot>)

  /** One `PUBLISH` issued against the shared store. */
  datatype Published = Published(channel: string, message: DataSyncMessage)
}
