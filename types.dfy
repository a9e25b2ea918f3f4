/** The records shared by the resolver, the classifier and the store. */
module Types {
  import opened Base

  datatype Images = Images(cover: Option<string>, avatar: Option<string>)

  /** A resolved person. `None` stands for the source's `null`. */
  datatype UserInfo = UserInfo(
    id: string,
    name: Option<string>,
    alternateName: Option<string>,
    gender: Option<string>,
    url: Option<string>,
    images: Images)

  datatype GroupInfo = GroupInfo(id: string, name: string, url: string, avatar: Option<string>)

  datatype MembershipRole = Member | Admin | Moderator | NotMember

  /** `MembershipStatus["status"]`: a role, a failed check, or a placeholder while checking. */
  datatype CheckStatus = Role(role: MembershipRole) | Error | Checking

  datatype MembershipStatus = MembershipStatus(
    userId: string,
    groupId: string,
    status: CheckStatus,
    checkedAt: int,
    userInfo: Option<UserInfo>,
    groupInfo: Option<GroupInfo>)

  /** Queue item states; `Failed` is the source's `"ERROR"`. */
  datatype QueueStatus = Pending | Processing | Completed | Failed

  /** Identity of a queue item: the source concatenates these three values
      into one string; here they stay apart. */
  datatype ItemKey = ItemKey(userId: string, groupId: string, createdAt: int)

  datatype CheckQueueItem = CheckQueueItem(
    id: ItemKey,
    userId: string,
    groupId: string,
    priority: int,
    addedAt: int,
    status: QueueStatus,
    userInfo: Option<UserInfo>)
}
