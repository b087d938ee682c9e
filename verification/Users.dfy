/**
 The user object and the user manager, updated in place.
 */
module Users {
  import opened CStrings
  import L = Listing

  datatype UserResult = UserSuccess | GroupAlreadyExists | UserGroupNotFound

  datatype UserMngResult =
    | UserMngSuccess
    | UserMngDuplicate
    | UserNotFound
    | GroupNotFound
    | WrongPassword

  datatype Account = Account(password: CString, active: bool, groups: set<CString>)

  class User {
    const userName: CString
    const password: CString
    var isActive: bool
    var groups: set<CString>

    constructor (name: CString, pass: CString)
      ensures userName == name && password == pass && !isActive && groups == {}
    {
      userName, password, isActive, groups := name, pass, false, {};
    }

    ghost function View(): Account
      reads this
    {
      Account(password, isActive, groups)
    }

    method Activate()
      modifies this
      ensures View() == old(View()).(active := true)
    {
      isActive := true;
    }

    method Deactivate()
      modifies this
      ensures View() == old(View()).(active := false)
    {
      isActive := false;
    }

    method GetPassword() returns (copy: CString)
      ensures copy == View().password
    {
      copy := password;
    }

    method AddGroup(group: CString) returns (result: UserResult)
      modifies this
      ensures View() == old(View()).(groups := old(groups) + {group})
      ensures result == if group in old(groups) then GroupAlreadyExists else UserSuccess
    {
      if group in groups {
        assert groups == groups + {group};
        return GroupAlreadyExists;
      }
      groups := groups + {group};
      return UserSuccess;
    }

    method RemoveGroup(group: CString) returns (result: UserResult)
      modifies this
      ensures View() == old(View()).(groups := old(groups) - {group})
      ensures result == if group in old(groups) then UserSuccess else UserGroupNotFound
    {
      if group !in groups {
        assert groups == groups - {group};
        return UserGroupNotFound;
      }
      groups := groups - {group};
      return UserSuccess;
    }

    method RemoveAllGroups()
      modifies this
      ensures View() == old(View()).(groups := {})
    {
      groups := {};
    }
  }

  class UsrMng {
    var userMap: map<CString, User>
    ghost var Repr: set<object>

    ghost predicate Valid()
      reads this, Repr
    {
      && this in Repr
      && (forall n :: n in userMap ==>
            userMap[n] in Repr && userMap[n] as object != this && userMap[n].userName == n)
    }

    /** The accounts these objects stand for. */
    ghost function View(): map<CString, Account>
      requires Valid()
      reads this, Repr
    {
      map n | n in userMap :: userMap[n].View()
    }

    constructor ()
      ensures Valid() && fresh(Repr)
      ensures View() == map[]
    {
      userMap := map[];
      Repr := {this};
    }

    method RegisterNewUser(name: CString, pass: CString) returns (result: UserMngResult)
      requires Valid()
      requires |name| < L.MAX_SIZE && |pass| < L.MAX_SIZE
      modifies Repr
      ensures Valid() && fresh(Repr - old(Repr))
      ensures result == if name in old(View()) then UserMngDuplicate else UserMngSuccess
      ensures View() == if name in old(View()) then old(View())
                        else old(View())[name := Account(pass, false, {})]
    {
      var user := new User(name, pass);
      if name in userMap {
        return UserMngDuplicate;
      }
      userMap := userMap[name := user];
      Repr := Repr + {user};
      return UserMngSuccess;
    }

    method LogInUser(name: CString, pass: CString) returns (result: UserMngResult)
      requires Valid()
      modifies Repr
      ensures Valid() && Repr == old(Repr)
      ensures result == if name !in old(View()) then UserNotFound
                        else if old(View())[name].password == pass then UserMngSuccess
                        else WrongPassword
      ensures View() == if result == UserMngSuccess
                        then old(View())[name := old(View())[name].(active := true)]
                        else old(View())
    {
      if name !in userMap {
        return UserNotFound;
      }
      var passwordCopy := userMap[name].GetPassword();
      if pass == passwordCopy {
        userMap[name].Activate();
        return UserMngSuccess;
      }
      return WrongPassword;
    }

    method LogOutUser(name: CString) returns (result: UserMngResult)
      requires Valid()
      modifies Repr
      ensures Valid() && Repr == old(Repr)
      ensures result == if name in old(View()) then UserMngSuccess else UserNotFound
      ensures View() == if name in old(View())
                        then old(View())[name := old(View())[name].(active := false)]
                        else old(View())
    {
      if name !in userMap {
        return UserNotFound;
      }
      userMap[name].Deactivate();
      return UserMngSuccess;
    }

    method AddGroupToUser(group: CString, name: CString) returns (result: UserMngResult)
      requires Valid()
      modifies Repr
      ensures Valid() && Repr == old(Repr)
      ensures result == if name !in old(View()) then UserNotFound
                        else if group in old(View())[name].groups then UserMngDuplicate
                        else UserMngSuccess
      ensures View() == if name !in old(View()) then old(View())
                        else old(View())[name := old(View())[name].(groups := old(View())[name].groups + {group})]
    {
      if name !in userMap {
        return UserNotFound;
      }
      var status := userMap[name].AddGroup(group);
      result := if status == GroupAlreadyExists then UserMngDuplicate else UserMngSuccess;
    }

    method RemoveGroupFromUser(group: CString, name: CString) returns (result: UserMngResult)
      requires Valid()
      modifies Repr
      ensures Valid() && Repr == old(Repr)
      ensures result == if name !in old(View()) then UserNotFound
                        else if group in old(View())[name].groups then UserMngSuccess
                        else GroupNotFound
      ensures View() == if name !in old(View()) then old(View())
                        else old(View())[name := old(View())[name].(groups := old(View())[name].groups - {group})]
    {
      if name !in userMap {
        return UserNotFound;
      }
      var status := userMap[name].RemoveGroup(group);
      result := if status == UserGroupNotFound then GroupNotFound else UserMngSuccess;
    }

    method RemoveAllGroupsFromUser(name: CString) returns (result: UserMngResult)
      requires Valid()
      modifies Repr
      ensures Valid() && Repr == old(Repr)
      ensures result == if name in old(View()) then UserMngSuccess else UserNotFound
      ensures View() == if name in old(View())
                        then old(View())[name := old(View())[name].(groups := {})]
                        else old(View())
    {
      if name !in userMap {
        return UserNotFound;
      }
      userMap[name].RemoveAllGroups();
      return UserMngSuccess;
    }
  }
}
