/** Rows of the server's store that several components share. */
module Records {

  /** `exactType` is the client type after the `client_type_exact` property is applied; 4 marks a music bot. */
  datatype OnlineClient = OnlineClient(server: nat, channel: nat, database: nat, exactType: nat)

  datatype ChannelGroupAssignment = ChannelGroupAssignment(channel: nat, client: nat, group: nat)

  type Permissions = map<string, int>

  datatype ChannelClientTarget = ChannelClientTarget(channel: nat, client: nat, permissions: Permissions)

  datatype ClientTarget =
    ClientTarget(server: nat, client: nat, uniqueId: string, nickname: string, permissions: Permissions)

  datatype Message = Message(conversation: nat, timestamp: nat, sender: nat, text: string)
}
