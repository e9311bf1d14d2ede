/** The title bar of the stand-alone collaborative-editing client: the document title and
    the avatars of the other collaborators (this copy has no back icon). */
module CollabTitleBar {
  import opened Actions
  import opened Roster
  import opened ClientData

  /** `TitleBar`. `documentName` is the attached editor's document name and `titleText`
      the text of the title label; the DOM elements themselves are not modelled. */
  class TitleBar {
    var userMap: map<string, Avatar>
    var userList: seq<Avatar>
    ghost var ids: seq<string>
    const dataService: DataService
    var documentName: string
    var titleText: string

    /** The avatar list and the map describe the same collaborators. */
    ghost predicate Valid()
      reads this
    {
      RosterValid(userMap, userList, ids)
    }

    /** The roster starts empty. */
    constructor (dataService: DataService, documentName: string)
      ensures Valid()
      ensures this.dataService == dataService && this.documentName == documentName
      ensures userMap == map[] && userList == [] && titleText == ""
    {
      this.dataService := dataService;
      this.documentName := documentName;
      userMap := map[];
      userList := [];
      ids := [];
      titleText := "";
    }

    /** `updateDocumentTitle`: an empty document name becomes "Untitled"; the label shows
        the fixed title text. */
    method UpdateDocumentTitle()
      modifies this`documentName, this`titleText
      ensures documentName == DefaultTitle(old(documentName))
      ensures titleText == TitleText
    {
      if documentName == "" {
        documentName := "Untitled";
      }
      titleText := TitleText;
    }

    /** `addUser`: each entry whose connection id is not yet in the map and whose user is
        not the author gets a new avatar at the end of the list and a map key. */
    method AddUser(actionInfos: OneOrMany)
      requires Valid()
      modifies this`userMap, this`userList, this`ids
      ensures Valid()
      ensures AddedInOrder(old(userMap), old(userList), old(ids), userMap, userList, ids,
                           Accepted(AsList(actionInfos), old(userMap).Keys, dataService.authorName))
    {
      var list := AsList(actionInfos);
      ghost var author := dataService.authorName;
      ghost var map0, list0, ids0 := userMap, userList, ids;
      for i := 0 to |list|
        invariant Valid()
        invariant AddedInOrder(map0, list0, ids0, userMap, userList, ids, Accepted(list[..i], map0.Keys, author))
      {
        ghost var m, l, d := userMap, userList, ids;
        AddEntry(list[i]);
        EntryStep(map0, list0, ids0, m, l, d, userMap, userList, ids, list, i, author);
      }
      assert list[..|list|] == list;
    }

    /** One pass of the `addUser` loop: an entry whose connection id is in the map, or
        whose user is the author, is skipped; otherwise a new avatar with the user's
        initials and name is appended to the list and bound to the id. */
    method AddEntry(actionInfo: ActionInfo)
      requires Valid()
      modifies this`userMap, this`userList, this`ids
      ensures Valid()
      ensures actionInfo.connectionId in old(userMap) || actionInfo.currentUser == dataService.authorName ==>
        userMap == old(userMap) && userList == old(userList) && ids == old(ids)
      ensures !(actionInfo.connectionId in old(userMap) || actionInfo.currentUser == dataService.authorName) ==>
        && |userList| == |old(userList)| + 1
        && userList == old(userList) + [userList[|old(userList)|]]
        && userList[|old(userList)|].title == actionInfo.currentUser
        && userList[|old(userList)|].initials == Initials(actionInfo.currentUser)
        && userMap == old(userMap)[actionInfo.connectionId := userList[|old(userList)|]]
        && ids == old(ids) + [actionInfo.connectionId]
    {
      var authorName := dataService.GetAuthorName();
      if actionInfo.connectionId in userMap || actionInfo.currentUser == authorName {
        return;
      }
      var initials := ConstructInitial(actionInfo.currentUser);
      var avatar := new Avatar(initials, actionInfo.currentUser);
      RosterAdd(userMap, userList, ids, actionInfo.connectionId, avatar);
      userList := userList + [avatar];
      userMap := userMap[actionInfo.connectionId := avatar];
      ids := ids + [actionInfo.connectionId];
    }

    /** `removeUser`: a present id loses its key and its avatar leaves the list; an absent
        id changes nothing. */
    method RemoveUser(conectionId: string)
      requires Valid()
      modifies this`userMap, this`userList, this`ids
      ensures Valid()
      ensures conectionId !in old(userMap) ==> userMap == old(userMap) && userList == old(userList)
      ensures conectionId in old(userMap) ==>
        userMap == old(userMap) - {conectionId} &&
        userList == Without(old(userList), old(userMap)[conectionId])
    {
      if conectionId in userMap {
        var avatar := userMap[conectionId];
        KeySetHas(ids, conectionId);
        ghost var k :| 0 <= k < |ids| && ids[k] == conectionId;
        RosterRemove(userMap, userList, ids, k);
        WithoutDistinct(userList, k);
        userList := Without(userList, avatar);
        userMap := userMap - {conectionId};
        ids := ids[..k] + ids[k + 1..];
      }
    }
  }
}
